/**
 * The read side of the quiz-question table (utils.py): grouping questions into
 * sets, the paginated set listing, the single-set page with its `has_next`
 * probe and sidebar, and the URL slug that links the two.
 *
 * The table is a `seq<Question>` in stored (rowid) order; a missing database
 * file is `None`. Two asymmetries of the SQL are kept on purpose: the listing
 * groups by `category` with SQLite's default BINARY collation (case-sensitive),
 * while the set page matches `category ... COLLATE NOCASE`.
 */
module QuizRepository {
  import opened Wrappers
  import opened Strings
  import StableSort

  /** One row of the `questions` table, with `options` and `correct` already
      decoded from their JSON text. */
  datatype Question = Question(
    id: string,
    setId: int,
    category: string,
    tag: string,
    description: string,
    question: string,
    imageUrl: string,
    options: seq<string>,
    correct: seq<string>,
    explanation: string)

  /** A `GROUP BY category, set_id` group key (exact, case-sensitive equality). */
  datatype SetKey = SetKey(category: string, setNum: int)

  /** One element of the listing: `category, set_id as set_num, tag,
      description` plus the derived `url_slug`. */
  datatype SetSummary = SetSummary(
    category: string, setNum: int, tag: string, description: string, urlSlug: string)

  datatype SidebarEntry = SidebarEntry(category: string, setNum: int, urlSlug: string)

  /** The dictionary `get_mcq_set_data` returns. */
  datatype SetPage = SetPage(
    questions: seq<Question>,
    currentTag: string,
    cleanCategory: string,
    hasNext: bool,
    sidebar: seq<SidebarEntry>)

  /** The number of sidebar links (`LIMIT 5`). */
  const SidebarLimit := 5

  function KeyOf(q: Question): SetKey {
    SetKey(q.category, q.setId)
  }

  function Keys(rows: seq<Question>): (r: seq<SetKey>)
    ensures |r| == |rows|
    ensures forall i :: 0 <= i < |rows| ==> r[i] == KeyOf(rows[i])
  {
    seq(|rows|, i requires 0 <= i < |rows| => KeyOf(rows[i]))
  }

  // ---------------------------------------------------------------------------
  // The listing order: ORDER BY category ASC, set_id DESC
  // ---------------------------------------------------------------------------

  predicate ListingLe(a: SetKey, b: SetKey) {
    StrLt(a.category, b.category) || (a.category == b.category && a.setNum >= b.setNum)
  }

  /** `a` is listed strictly before `b`. */
  predicate ListingLt(a: SetKey, b: SetKey) {
    StrLt(a.category, b.category) || (a.category == b.category && a.setNum > b.setNum)
  }

  lemma ListingLeIsTotalPreorder()
    ensures StableSort.TotalPreorder(ListingLe)
  {
    forall a: SetKey, b: SetKey
      ensures ListingLe(a, b) || ListingLe(b, a)
    {
      StrLeTotalOrder(a.category, b.category, b.category);
    }
    forall a: SetKey, b: SetKey, c: SetKey | ListingLe(a, b) && ListingLe(b, c)
      ensures ListingLe(a, c)
    {
      StrLeTotalOrder(a.category, b.category, c.category);
      StrLtAsymmetric(a.category, b.category);
      StrLtIrreflexive(a.category);
    }
  }

  lemma ListingLeDistinctIsLt(a: SetKey, b: SetKey)
    requires ListingLe(a, b) && a != b
    ensures ListingLt(a, b)
  {
  }

  /** The distinct group keys of the table in listing order: every key of the
      table occurs exactly once, nothing else occurs, and the keys are strictly
      ordered by category ascending, then set number descending. */
  function OrderedKeys(rows: seq<Question>): (r: seq<SetKey>)
    ensures forall i :: 0 <= i < |rows| ==> KeyOf(rows[i]) in r
    ensures forall j :: 0 <= j < |r| ==> r[j] in Keys(rows)
    ensures forall i, j :: 0 <= i < j < |r| ==> ListingLt(r[i], r[j])
  {
    SortedKeysFacts(Keys(rows));
    StableSort.Sort(StableSort.Dedup(Keys(rows)), ListingLe)
  }

  lemma ListingSorted(d: seq<SetKey>)
    ensures StableSort.Sorted(StableSort.Sort(d, ListingLe), ListingLe)
  {
    ListingLeIsTotalPreorder();
    StableSort.SortSorted(d, ListingLe);
  }

  lemma SortedKeysFacts(keys: seq<SetKey>)
    ensures var r := StableSort.Sort(StableSort.Dedup(keys), ListingLe);
      && (forall i :: 0 <= i < |keys| ==> keys[i] in r)
      && (forall j :: 0 <= j < |r| ==> r[j] in keys)
      && (forall i, j :: 0 <= i < j < |r| ==> ListingLt(r[i], r[j]))
  {
    var d := StableSort.Dedup(keys);
    var r := StableSort.Sort(d, ListingLe);
    ListingSorted(d);
    StableSort.SortDistinct(d, ListingLe);
    StableSort.SortMembers(d, ListingLe);
    forall i | 0 <= i < |keys|
      ensures keys[i] in r
    {
      assert keys[i] in d;
    }
    forall j | 0 <= j < |r|
      ensures r[j] in keys
    {
      assert r[j] in d;
    }
    forall i, j | 0 <= i < j < |r|
      ensures ListingLt(r[i], r[j])
    {
      ListingLeDistinctIsLt(r[i], r[j]);
    }
  }

  /** Strict ordering means no group is listed twice. */
  lemma OrderedKeysDistinct(rows: seq<Question>)
    ensures StableSort.Distinct(OrderedKeys(rows))
  {
    var r := OrderedKeys(rows);
    forall i, j | 0 <= i < j < |r|
      ensures r[i] != r[j]
    {
      assert ListingLt(r[i], r[j]);
      StrLtIrreflexive(r[i].category);
    }
  }

  // ---------------------------------------------------------------------------
  // Groups and summaries
  // ---------------------------------------------------------------------------

  /** The rows of the group `k`, in stored order. */
  function GroupRows(rows: seq<Question>, k: SetKey): (r: seq<Question>)
    ensures forall q :: q in r <==> q in rows && KeyOf(q) == k
  {
    if |rows| == 0 then []
    else (if KeyOf(rows[0]) == k then [rows[0]] else []) + GroupRows(rows[1..], k)
  }

  /** The category as it appears in a listing link: spaces become hyphens,
      then ASCII letters are lowered, the fold the set page's NOCASE match
      undoes. The listing as written lowers with Python's `lower`
      (`SlugAsWritten`); the two agree on ASCII categories. */
  function Slug(category: string): (r: string)
    ensures |r| == |category|
    ensures ' ' !in r
    ensures NoCaseEq(r, ReplaceChar(category, ' ', '-'))
    ensures Lower(r) == r
  {
    LowerIdempotent(ReplaceChar(category, ' ', '-'));
    Lower(ReplaceChar(category, ' ', '-'))
  }

  lemma LowerIdempotent(s: string)
    ensures Lower(Lower(s)) == Lower(s)
  {
  }

  /** `s['category'].replace(' ', '-').lower()` with Python's `lower`, which
      also lowers accented capitals that NOCASE does not fold. */
  function SlugAsWritten(category: string): (r: string)
    ensures |r| == |category|
    ensures ' ' !in r
    ensures IsAscii(category) ==> r == Slug(category)
  {
    var spaced := ReplaceChar(category, ' ', '-');
    assert IsAscii(category) ==> IsAscii(spaced);
    if IsAscii(category) then (PyLowerOnAscii(spaced); PyLower(spaced)) else PyLower(spaced)
  }

  /** The summary has the tag and description of one single row of its group. */
  ghost predicate FromOneRow(rows: seq<Question>, s: SetSummary) {
    exists q :: q in rows && KeyOf(q) == SetKey(s.category, s.setNum)
      && q.tag == s.tag && q.description == s.description
  }

  /** One listing element. With `GROUP BY` and bare `tag`/`description`
      columns SQLite takes both from one row of the group that it does not
      specify; `choose` stands for that choice. */
  function Summarize(rows: seq<Question>, k: SetKey, choose: seq<Question> -> nat): (r: SetSummary)
    requires k in Keys(rows)
    ensures SetKey(r.category, r.setNum) == k
    ensures r.urlSlug == Slug(k.category)
    ensures FromOneRow(rows, r)
  {
    var g := GroupRows(rows, k);
    var i :| 0 <= i < |rows| && Keys(rows)[i] == k;
    assert rows[i] in g;
    var q := g[choose(g) % |g|];
    assert q in g;
    SetSummary(k.category, k.setNum, q.tag, q.description, Slug(k.category))
  }

  /** The whole listing (the query without `LIMIT`/`OFFSET`). */
  function AllSets(rows: seq<Question>, choose: seq<Question> -> nat): (r: seq<SetSummary>)
    ensures |r| == |OrderedKeys(rows)|
    ensures forall i :: 0 <= i < |r| ==> SetKey(r[i].category, r[i].setNum) == OrderedKeys(rows)[i]
    ensures forall i :: 0 <= i < |r| ==> r[i].urlSlug == Slug(r[i].category) && FromOneRow(rows, r[i])
  {
    var keys := OrderedKeys(rows);
    seq(|keys|, i requires 0 <= i < |keys| => Summarize(rows, keys[i], choose))
  }

  // ---------------------------------------------------------------------------
  // LIMIT ? OFFSET ?
  // ---------------------------------------------------------------------------

  /** SQLite's `LIMIT limit OFFSET offset`: a negative offset counts as zero,
      a negative limit means no limit. */
  function Window<T>(xs: seq<T>, offset: int, limit: int): (r: seq<T>)
    ensures limit >= 0 ==> |r| <= limit
    ensures limit < 0 ==> (offset <= 0 ==> r == xs)
  {
    var start := if offset < 0 then 0 else if offset > |xs| then |xs| else offset;
    if limit < 0 then xs[start..]
    else xs[start..if start + limit > |xs| then |xs| else start + limit]
  }

  /** Page `page` of size `perPage`: `LIMIT perPage OFFSET (page - 1) * perPage`. */
  function Page<T>(xs: seq<T>, page: int, perPage: int): (r: seq<T>)
    ensures perPage >= 0 ==> |r| <= perPage
  {
    Window(xs, (page - 1) * perPage, perPage)
  }

  /** `get_paginated_mcq_sets(page, per_page)`; a missing database gives no sets. */
  function PaginatedSets(
    store: Option<seq<Question>>, page: int, perPage: int, choose: seq<Question> -> nat): (r: seq<SetSummary>)
    ensures store.None? ==> r == []
    ensures perPage >= 0 ==> |r| <= perPage
  {
    match store
    case None => []
    case Some(rows) => Page(AllSets(rows, choose), page, perPage)
  }

  function Min(a: int, b: int): int {
    if a <= b then a else b
  }

  /** Pages 1..k fetched one after another, concatenated. */
  function PagesUpTo<T>(xs: seq<T>, perPage: int, k: nat): seq<T> {
    if k == 0 then [] else PagesUpTo(xs, perPage, k - 1) + Page(xs, k, perPage)
  }

  /** Page `p` is exactly the elements `[(p-1)*n, (p-1)*n + n)` of the full
      sequence, cut off at its end. */
  lemma PageIsSlice<T>(xs: seq<T>, page: int, perPage: int)
    requires page >= 1 && perPage >= 1
    ensures var start := Min((page - 1) * perPage, |xs|);
      Page(xs, page, perPage) == xs[start..Min(start + perPage, |xs|)]
  {
    assert (page - 1) * perPage >= 0;
  }

  /** Fetching pages 1..k with a fixed page size yields a prefix of the full
      listing, in order, with no gap and no repetition. */
  lemma {:induction false} PagesConcatenate<T>(xs: seq<T>, perPage: int, k: nat)
    requires perPage >= 1
    ensures PagesUpTo(xs, perPage, k) == xs[..Min(k * perPage, |xs|)]
  {
    if k > 0 {
      var m := (k - 1) * perPage;
      MulStep(k, perPage);
      PagesConcatenate(xs, perPage, k - 1);
      PageIsSlice(xs, k, perPage);
      var a, b := Min(m, |xs|), Min(m + perPage, |xs|);
      assert Min(a + perPage, |xs|) == b;
      JoinSlices(xs, a, b);
    }
  }

  lemma MulStep(k: nat, n: int)
    requires k > 0 && n >= 1
    ensures (k - 1) * n >= 0 && k * n == (k - 1) * n + n
  {
  }

  lemma JoinSlices<T>(xs: seq<T>, a: nat, b: nat)
    requires a <= b <= |xs|
    ensures xs[..a] + xs[a..b] == xs[..b]
  {
  }

  /** A page shorter than the page size is the last non-empty one: the
      caller's end-of-list signal never skips data. */
  lemma ShortPageIsLast<T>(xs: seq<T>, page: int, perPage: int)
    requires page >= 1 && perPage >= 1
    requires |Page(xs, page, perPage)| < perPage
    ensures Page(xs, page + 1, perPage) == []
  {
    PageIsSlice(xs, page, perPage);
    PageIsSlice(xs, page + 1, perPage);
    assert (page + 1 - 1) * perPage == (page - 1) * perPage + perPage;
  }

  /** A page number below 1 gives a negative offset, which SQLite treats as 0:
      the first page is returned. */
  lemma PageBelowOneIsFirstPage<T>(xs: seq<T>, page: int, perPage: int)
    requires page < 1 && perPage >= 0
    ensures Page(xs, page, perPage) == Page(xs, 1, perPage)
  {
    assert (page - 1) * perPage <= 0;
  }

  // ---------------------------------------------------------------------------
  // The single-set page
  // ---------------------------------------------------------------------------

  /** `category.replace('-', ' ')`: the URL slug turned back into a category. */
  function CleanCategory(category: string): (r: string)
    ensures |r| == |category| && '-' !in r
  {
    ReplaceChar(category, '-', ' ')
  }

  /** `category = ? COLLATE NOCASE` against the already folded argument. */
  predicate InFolded(q: Question, folded: string) {
    Lower(q.category) == folded
  }

  /** The row-by-row scan behind the set query. */
  function MatchingRows(rows: seq<Question>, folded: string, setNum: int): seq<Question> {
    if |rows| == 0 then []
    else
      (if rows[0].setId == setNum && InFolded(rows[0], folded) then [rows[0]] else [])
      + MatchingRows(rows[1..], folded, setNum)
  }

  lemma {:induction false} MatchingRowsContents(rows: seq<Question>, folded: string, setNum: int)
    ensures var r := MatchingRows(rows, folded, setNum);
      && |r| <= |rows|
      && (forall q :: q in r <==> q in rows && q.setId == setNum && InFolded(q, folded))
      && (forall q :: multiset(r)[q] == if q.setId == setNum && InFolded(q, folded) then multiset(rows)[q] else 0)
  {
    if |rows| > 0 {
      assert rows == [rows[0]] + rows[1..];
      MatchingRowsContents(rows[1..], folded, setNum);
    }
  }

  lemma {:induction false} MatchingRowsAppend(a: seq<Question>, b: seq<Question>, folded: string, setNum: int)
    ensures MatchingRows(a + b, folded, setNum) == MatchingRows(a, folded, setNum) + MatchingRows(b, folded, setNum)
  {
    if |a| == 0 {
      assert a + b == b;
    } else {
      assert (a + b)[0] == a[0] && (a + b)[1..] == a[1..] + b;
      MatchingRowsAppend(a[1..], b, folded, setNum);
    }
  }

  /** `SELECT * ... WHERE set_id = ? AND category = ? COLLATE NOCASE`, in stored order. */
  function SetRows(rows: seq<Question>, folded: string, setNum: int): (r: seq<Question>)
    ensures |r| <= |rows|
    ensures forall q :: q in r <==> q in rows && q.setId == setNum && InFolded(q, folded)
    ensures forall q :: multiset(r)[q] == if q.setId == setNum && InFolded(q, folded) then multiset(rows)[q] else 0
  {
    MatchingRowsContents(rows, folded, setNum);
    MatchingRows(rows, folded, setNum)
  }

  /** The query is a filter: it keeps a single row exactly when that row
      matches, and the result for two stretches of stored rows is the result
      for the first followed by the result for the second. */
  lemma SetRowsAppend(a: seq<Question>, b: seq<Question>, folded: string, setNum: int)
    ensures SetRows(a + b, folded, setNum) == SetRows(a, folded, setNum) + SetRows(b, folded, setNum)
    ensures |a| == 1 ==> SetRows(a, folded, setNum) == if a[0].setId == setNum && InFolded(a[0], folded) then a else []
  {
    MatchingRowsAppend(a, b, folded, setNum);
    if |a| == 1 {
      assert a[1..] == [];
    }
  }

  /** `SELECT 1 ... LIMIT 1`: stops at the first matching row. */
  function SetExists(rows: seq<Question>, folded: string, setNum: int): (r: bool)
    ensures r <==> exists q :: q in rows && q.setId == setNum && InFolded(q, folded)
  {
    if |rows| == 0 then false
    else if rows[0].setId == setNum && InFolded(rows[0], folded) then true
    else
      assert forall q :: q in rows <==> q == rows[0] || q in rows[1..];
      SetExists(rows[1..], folded, setNum)
  }

  /** The `set_id` of every row of the category, in stored order. */
  function CategorySetIds(rows: seq<Question>, folded: string): (r: seq<int>)
    ensures forall n :: n in r <==> exists q :: q in rows && q.setId == n && InFolded(q, folded)
  {
    if |rows| == 0 then []
    else
      assert forall q :: q in rows <==> q == rows[0] || q in rows[1..];
      (if InFolded(rows[0], folded) then [rows[0].setId] else []) + CategorySetIds(rows[1..], folded)
  }

  predicate IntGe(a: int, b: int) {
    a >= b
  }

  lemma IntGeIsTotalPreorder()
    ensures StableSort.TotalPreorder(IntGe)
  {
  }

  /** `SELECT DISTINCT set_id ... ORDER BY set_id DESC`: each set number once,
      strictly descending. */
  function DistinctDescending(ids: seq<int>): (r: seq<int>)
    ensures forall n :: n in r <==> n in ids
    ensures forall i, j :: 0 <= i < j < |r| ==> r[i] > r[j]
  {
    DistinctDescendingFacts(ids);
    StableSort.Sort(StableSort.Dedup(ids), IntGe)
  }

  lemma DistinctDescendingFacts(ids: seq<int>)
    ensures var r := StableSort.Sort(StableSort.Dedup(ids), IntGe);
      && (forall n :: n in r <==> n in ids)
      && (forall i, j :: 0 <= i < j < |r| ==> r[i] > r[j])
  {
    var d := StableSort.Dedup(ids);
    var r := StableSort.Sort(d, IntGe);
    IntGeSorted(d);
    StableSort.SortDistinct(d, IntGe);
    StableSort.SortMembers(d, IntGe);
    forall n | n in ids
      ensures n in r
    {
      var k :| 0 <= k < |ids| && ids[k] == n;
    }
    forall i, j | 0 <= i < j < |r|
      ensures r[i] > r[j]
    {
      assert IntGe(r[i], r[j]) && r[i] != r[j];
    }
  }

  lemma IntGeSorted(d: seq<int>)
    ensures StableSort.Sorted(StableSort.Sort(d, IntGe), IntGe)
  {
    IntGeIsTotalPreorder();
    StableSort.SortSorted(d, IntGe);
  }

  /** The sidebar's `LIMIT 5`: at most five set numbers of the category,
      strictly descending, and they are its largest ones (any set number left
      out is smaller than all five). */
  function SidebarIds(rows: seq<Question>, folded: string): (r: seq<int>)
    ensures |r| <= SidebarLimit
    ensures forall i, j :: 0 <= i < j < |r| ==> r[i] > r[j]
    ensures forall n :: n in r ==> n in CategorySetIds(rows, folded)
    ensures forall n :: n in CategorySetIds(rows, folded) && n !in r ==>
      |r| == SidebarLimit && n < r[SidebarLimit - 1]
  {
    var all := DistinctDescending(CategorySetIds(rows, folded));
    TopFive(all);
    if |all| <= SidebarLimit then all else all[..SidebarLimit]
  }

  lemma TopFive(all: seq<int>)
    requires forall i, j :: 0 <= i < j < |all| ==> all[i] > all[j]
    ensures var r := if |all| <= SidebarLimit then all else all[..SidebarLimit];
      forall n :: n in all && n !in r ==> |r| == SidebarLimit && n < r[SidebarLimit - 1]
  {
    var r := if |all| <= SidebarLimit then all else all[..SidebarLimit];
    forall n | n in all && n !in r
      ensures |r| == SidebarLimit && n < r[SidebarLimit - 1]
    {
      var k :| 0 <= k < |all| && all[k] == n;
      assert k >= SidebarLimit;
      assert all[SidebarLimit - 1] > all[k];
    }
  }

  /** `get_mcq_set_data(category, set_num)`. */
  function GetSetData(store: Option<seq<Question>>, category: string, setNum: int): (r: Option<SetPage>)
    ensures r.None? <==> store.None? || SetRows(store.value, Lower(CleanCategory(category)), setNum) == []
    ensures r.Some? ==>
      var rows, folded, page := store.value, Lower(CleanCategory(category)), r.value;
      && page.questions == SetRows(rows, folded, setNum)
      && page.currentTag == page.questions[0].tag
      && page.cleanCategory == CleanCategory(category)
      && (page.hasNext <==> exists q :: q in rows && q.setId == setNum + 1 && NoCaseEq(q.category, page.cleanCategory))
      && (forall e :: e in page.sidebar ==> e.category == page.cleanCategory && e.urlSlug == category)
  {
    match store
    case None => None
    case Some(rows) =>
      var clean := CleanCategory(category);
      var folded := Lower(clean);
      var qs := SetRows(rows, folded, setNum);
      if |qs| == 0 then None
      else
        var ids := SidebarIds(rows, folded);
        Some(SetPage(
          qs,
          qs[0].tag,
          clean,
          SetExists(rows, folded, setNum + 1),
          seq(|ids|, i requires 0 <= i < |ids| => SidebarEntry(clean, ids[i], category))))
  }

  /** The set numbers of a page's sidebar links. */
  function SidebarNumbers(page: SetPage): seq<int> {
    seq(|page.sidebar|, i requires 0 <= i < |page.sidebar| => page.sidebar[i].setNum)
  }

  /** The page holds exactly the stored rows with that set number whose category
      equals the hyphen-to-space argument ignoring ASCII case, each as often as
      it is stored. */
  lemma SetPageRows(store: Option<seq<Question>>, category: string, setNum: int)
    requires store.Some?
    ensures GetSetData(store, category, setNum).Some? ==>
      forall q :: q in GetSetData(store, category, setNum).value.questions <==>
        q in store.value && q.setId == setNum && NoCaseEq(q.category, CleanCategory(category))
    ensures GetSetData(store, category, setNum).Some? ==>
      forall q :: multiset(GetSetData(store, category, setNum).value.questions)[q] ==
        if q.setId == setNum && NoCaseEq(q.category, CleanCategory(category)) then multiset(store.value)[q] else 0
    ensures GetSetData(store, category, setNum).None? <==>
      forall q :: q in store.value ==> !(q.setId == setNum && NoCaseEq(q.category, CleanCategory(category)))
  {
    var folded := Lower(CleanCategory(category));
    var qs := SetRows(store.value, folded, setNum);
    if qs != [] {
      assert qs[0] in qs;
    }
  }

  /** Folding case and turning hyphens into spaces commute. */
  lemma LowerCleanCommute(s: string)
    ensures Lower(CleanCategory(s)) == CleanCategory(Lower(s))
  {
  }

  /** `get_mcq_set_data` answers every case variant of a category alike: the
      same questions, tag, `has_next` and sidebar set numbers; only the echoed
      `clean_category` and sidebar `url_slug` keep the caller's spelling. */
  lemma SetPageIgnoresCase(store: Option<seq<Question>>, c1: string, c2: string, setNum: int)
    requires NoCaseEq(c1, c2)
    ensures GetSetData(store, c1, setNum).None? <==> GetSetData(store, c2, setNum).None?
    ensures GetSetData(store, c1, setNum).Some? ==>
      var p1, p2 := GetSetData(store, c1, setNum).value, GetSetData(store, c2, setNum).value;
      && p1.questions == p2.questions
      && p1.currentTag == p2.currentTag
      && p1.hasNext == p2.hasNext
      && SidebarNumbers(p1) == SidebarNumbers(p2)
  {
    LowerCleanCommute(c1);
    LowerCleanCommute(c2);
    assert Lower(CleanCategory(c1)) == Lower(CleanCategory(c2));
    SidebarNumbersAre(store, c1, setNum);
    SidebarNumbersAre(store, c2, setNum);
  }

  lemma SidebarNumbersAre(store: Option<seq<Question>>, category: string, setNum: int)
    ensures GetSetData(store, category, setNum).Some? ==>
      SidebarNumbers(GetSetData(store, category, setNum).value) == SidebarIds(store.value, Lower(CleanCategory(category)))
  {
  }

  /** `has_next` is true exactly when the set numbered `set_num + 1` of the same
      category has a page; a larger but non-adjacent set number does not count. */
  lemma HasNextIsSuccessorProbe(store: Option<seq<Question>>, category: string, setNum: int)
    requires GetSetData(store, category, setNum).Some?
    ensures GetSetData(store, category, setNum).value.hasNext <==> GetSetData(store, category, setNum + 1).Some?
  {
    SetPageRows(store, category, setNum + 1);
    var rows, clean := store.value, CleanCategory(category);
    if GetSetData(store, category, setNum).value.hasNext {
      var q :| q in rows && q.setId == setNum + 1 && NoCaseEq(q.category, clean);
      assert q in GetSetData(store, category, setNum + 1).value.questions;
    }
  }

  /** For a category without hyphens, turning the corrected slug's hyphens
      back into spaces gives the category again up to ASCII case. */
  lemma {:induction false} SlugRoundTrip(category: string)
    requires '-' !in category
    ensures NoCaseEq(CleanCategory(Slug(category)), category)
  {
    var spaced := ReplaceChar(category, ' ', '-');
    LowerCleanCommute(spaced);
    assert CleanCategory(spaced) == category;
    assert Lower(Lower(category)) == Lower(category);
  }

  /** As written, the slug turns back into the category up to ASCII case only
      for ASCII categories. */
  lemma SlugAsWrittenRoundTrip(category: string)
    requires '-' !in category && IsAscii(category)
    ensures NoCaseEq(CleanCategory(SlugAsWritten(category)), category)
  {
    SlugRoundTrip(category);
  }

  /** As written, the listing's link for the category "Été" (set 1) is
      /set/été/1, and the set page finds no rows for it: Python lowers 'É',
      NOCASE folds only ASCII. The corrected slug leads to the rows. */
  lemma AccentedCapitalLinkIsDead()
    ensures var q := Question("q1", 1, "\U{00C9}t\U{00E9}", "", "", "", "", [], [], "");
      && SlugAsWritten(q.category) == "\U{00E9}t\U{00E9}"
      && GetSetData(Some([q]), SlugAsWritten(q.category), 1).None?
      && GetSetData(Some([q]), Slug(q.category), 1).Some?
  {
    var q := Question("q1", 1, "\U{00C9}t\U{00E9}", "", "", "", "", [], [], "");
    AccentedLinkMisses(q);
    CorrectedLinkFinds(q);
  }

  lemma AccentedLinkMisses(q: Question)
    requires q == Question("q1", 1, "\U{00C9}t\U{00E9}", "", "", "", "", [], [], "")
    ensures SlugAsWritten(q.category) == "\U{00E9}t\U{00E9}"
    ensures GetSetData(Some([q]), SlugAsWritten(q.category), 1).None?
  {
    var link := SlugAsWritten(q.category);
    assert link[0] == '\U{00E9}' && link[1] == 't' && link[2] == '\U{00E9}';
    assert link == "\U{00E9}t\U{00E9}";
    var folded := Lower(CleanCategory(link));
    assert folded[0] == '\U{00E9}';
    assert Lower(q.category)[0] == '\U{00C9}';
    assert !InFolded(q, folded);
    assert SetRows([q], folded, 1) == [];
  }

  lemma CorrectedLinkFinds(q: Question)
    requires q == Question("q1", 1, "\U{00C9}t\U{00E9}", "", "", "", "", [], [], "")
    ensures GetSetData(Some([q]), Slug(q.category), 1).Some?
  {
    var good := Lower(CleanCategory(Slug(q.category)));
    assert Lower(q.category) == good;
    assert q in SetRows([q], good, 1);
  }

  /** Every link of the listing, built with the corrected slug, resolves: for
      a hyphen-free category, the set page addressed by a summary's `url_slug`
      and `set_num` exists and holds every row of that group. For ASCII
      categories the link is the one the code builds. */
  lemma ListingLinksResolve(rows: seq<Question>, choose: seq<Question> -> nat, i: nat)
    requires i < |AllSets(rows, choose)|
    requires '-' !in AllSets(rows, choose)[i].category
    ensures var s := AllSets(rows, choose)[i];
      && GetSetData(Some(rows), s.urlSlug, s.setNum).Some?
      && forall q :: q in GroupRows(rows, SetKey(s.category, s.setNum)) ==>
           q in GetSetData(Some(rows), s.urlSlug, s.setNum).value.questions
  {
    var s := AllSets(rows, choose)[i];
    var k := SetKey(s.category, s.setNum);
    SlugRoundTrip(s.category);
    SetPageRows(Some(rows), s.urlSlug, s.setNum);
    assert k in Keys(rows);
    var j :| 0 <= j < |rows| && Keys(rows)[j] == k;
    assert rows[j] in GroupRows(rows, k);
  }

  /** Rows whose categories differ only in case form separate groups in the
      listing, yet both are shown on one set page. */
  lemma CaseVariantsShareOnePage(rows: seq<Question>, a: Question, b: Question, choose: seq<Question> -> nat)
    requires a in rows && b in rows && a.setId == b.setId
    requires a.category != b.category && NoCaseEq(a.category, b.category) && '-' !in a.category
    ensures KeyOf(a) in OrderedKeys(rows) && KeyOf(b) in OrderedKeys(rows) && KeyOf(a) != KeyOf(b)
    ensures GetSetData(Some(rows), a.category, a.setId).Some?
    ensures a in GetSetData(Some(rows), a.category, a.setId).value.questions
    ensures b in GetSetData(Some(rows), a.category, a.setId).value.questions
  {
    RowKeyListed(rows, a);
    RowKeyListed(rows, b);
    CaseVariantsOnPage(rows, a, b);
  }

  /** Every row's group appears in the listing. */
  lemma RowKeyListed(rows: seq<Question>, a: Question)
    requires a in rows
    ensures KeyOf(a) in OrderedKeys(rows)
  {
    var i :| 0 <= i < |rows| && rows[i] == a;
    assert KeyOf(rows[i]) in OrderedKeys(rows);
  }

  /** The page of `a`'s category holds both rows. */
  lemma CaseVariantsOnPage(rows: seq<Question>, a: Question, b: Question)
    requires a in rows && b in rows && a.setId == b.setId
    requires NoCaseEq(a.category, b.category) && '-' !in a.category
    ensures GetSetData(Some(rows), a.category, a.setId).Some?
    ensures a in GetSetData(Some(rows), a.category, a.setId).value.questions
    ensures b in GetSetData(Some(rows), a.category, a.setId).value.questions
  {
    assert CleanCategory(a.category) == a.category;
    SetPageRows(Some(rows), a.category, a.setId);
  }
}
