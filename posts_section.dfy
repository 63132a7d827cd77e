/**
 * The listing rules of the blog's post section: which posts are published, which
 * category tab they fall under, how the filtered list is cut into pages of nine,
 * what each table row shows, and the two pieces of component state (the selected
 * tab and the current page) with the handlers that change them.
 */
module PostsSection {
  import opened Wrappers
  import opened NotionTypes
  import Seqs

  /** The categories a post can be shown under; `Etc` is the catch-all "기타". */
  datatype Category = All | Dev | Retro | Review | Etc

  /** A tab of the category bar: every category except the catch-all. */
  type Tab = c: Category | c != Etc witness All

  /** The text of a category, as shown on its tab or badge and as stored in Notion. */
  function Label(c: Category): string {
    match c
    case All => "전체"
    case Dev => "개발"
    case Retro => "회고"
    case Review => "후기"
    case Etc => "기타"
  }

  /** The tab selected when the section first renders (`DEFAULT_CATEGORY`). */
  const DefaultCategory: Tab := All

  /** `POSTS_PER_PAGE`. */
  const PostsPerPage: nat := 9

  /** Different categories have different labels, so matching a label picks one category. */
  lemma LabelInjective(c: Category, d: Category)
    ensures Label(c) == Label(d) ==> c == d
  {
    if c != d {
      assert Label(c)[0] != Label(d)[0];
    }
  }

  /**
   * `isDoneStatus`: a post is published exactly when its `Status` property is
   * status-typed and names "Done".
   */
  function IsDoneStatus(post: Page): (r: bool)
    ensures r <==> "Status" in post.properties && post.properties["Status"] == Status(Some("Done"))
  {
    match Lookup(post.properties, "Status")
    case Some(Status(name)) => name == Some("Done")
    case _ => false
  }

  /** The option chosen in a select-typed `Category` property, if any. */
  function SelectedName(post: Page): Option<string> {
    match Lookup(post.properties, "Category")
    case Some(Select(name)) => name
    case _ => None
  }

  /**
   * `getPostCategory`: the category named by the `Category` select when it names
   * one of 개발, 회고 or 후기, and the catch-all otherwise.
   */
  function GetPostCategory(post: Page): (r: Category)
    ensures r != All
    ensures r != Etc ==> SelectedName(post) == Some(Label(r))
    ensures r == Etc ==> forall c: Category :: c != All && c != Etc ==> SelectedName(post) != Some(Label(c))
  {
    match SelectedName(post)
    case Some(name) =>
      if name == Label(Dev) then Dev
      else if name == Label(Retro) then Retro
      else if name == Label(Review) then Review
      else Etc
    case None => Etc
  }

  /** A select naming "전체" is not a category of its own: the post goes to the catch-all. */
  lemma AllLabelIsEtc(post: Page)
    requires SelectedName(post) == Some(Label(All))
    ensures GetPostCategory(post) == Etc
  {
    LabelInjective(All, Dev);
    LabelInjective(All, Retro);
    LabelInjective(All, Review);
  }

  /**
   * Whether a post is listed under the selected tab: only published posts are, all
   * of them under "전체" and under another tab only those of that category.
   */
  function Listed(selected: Tab, post: Page): (r: bool)
    ensures r ==> IsDoneStatus(post)
    ensures selected == All ==> (r <==> IsDoneStatus(post))
    ensures r && selected != All ==> GetPostCategory(post) == selected
  {
    IsDoneStatus(post) && (selected == All || GetPostCategory(post) == selected)
  }

  /** A post is listed under at most one tab besides "전체", and never under one if it falls into "기타". */
  lemma ListedUnderOneTab(post: Page, t: Tab, u: Tab)
    requires t != All && u != All && Listed(t, post) && Listed(u, post)
    ensures t == u && GetPostCategory(post) == t
  {
  }

  /**
   * `filteredPosts`: the published posts, further restricted to the selected
   * category unless the tab is "전체".
   */
  function FilteredPosts(posts: seq<Page>, selected: Tab): (r: seq<Page>)
    ensures |r| <= |posts|
    ensures forall i :: 0 <= i < |r| ==> r[i] in posts && Listed(selected, r[i])
    ensures forall i :: 0 <= i < |posts| && Listed(selected, posts[i]) ==> posts[i] in r
  {
    var done := Seqs.Filter(posts, IsDoneStatus);
    if selected == All then done
    else Seqs.Filter(done, (post: Page) => GetPostCategory(post) == selected)
  }

  /**
   * The two-stage filter is one order-preserving filter by `Listed`, so the filtered
   * posts are exactly the listed ones, in their original order.
   */
  lemma FilteredIsSubsequence(posts: seq<Page>, selected: Tab)
    ensures FilteredPosts(posts, selected) == Seqs.Filter(posts, post => Listed(selected, post))
  {
    var listed := (post: Page) => Listed(selected, post);
    if selected == All {
      assert forall post :: listed(post) == IsDoneStatus(post);
      Seqs.FilterTwice(posts, IsDoneStatus, _ => true, listed);
      Seqs.FilterAll(Seqs.Filter(posts, IsDoneStatus), _ => true);
    } else {
      var inCategory := (post: Page) => GetPostCategory(post) == selected;
      assert forall post :: listed(post) == (IsDoneStatus(post) && inCategory(post));
      Seqs.FilterTwice(posts, IsDoneStatus, inCategory, listed);
    }
  }

  /** `totalPages`: `max(1, ceil(n / 9))`. */
  function TotalPages(n: nat): (r: nat)
    ensures r >= 1
    ensures r * PostsPerPage >= n
    ensures r == 1 || (r - 1) * PostsPerPage < n
  {
    var pages := (n + PostsPerPage - 1) / PostsPerPage;
    if pages < 1 then 1 else pages
  }

  /** `safeCurrentPage`: the current page, capped at the last page. */
  function SafeCurrentPage(currentPage: int, totalPages: int): (r: int)
    ensures r <= currentPage && r <= totalPages
    ensures r == currentPage || r == totalPages
  {
    if currentPage < totalPages then currentPage else totalPages
  }

  /** A current page of at least 1 stays within `[1, totalPages]` once capped. */
  lemma SafeCurrentPageInRange(currentPage: int, n: nat)
    requires currentPage >= 1
    ensures 1 <= SafeCurrentPage(currentPage, TotalPages(n)) <= TotalPages(n)
  {
  }

  /** `paginatedPosts`: `filteredPosts.slice((page - 1) * 9, (page - 1) * 9 + 9)`. */
  function PaginatedPosts(filtered: seq<Page>, page: int): (r: seq<Page>)
    ensures page >= 1 ==> |r| <= PostsPerPage
    ensures page >= 1 ==> r == filtered[Min((page - 1) * PostsPerPage, |filtered|)..Min(page * PostsPerPage, |filtered|)]
  {
    var start := (page - 1) * PostsPerPage;
    Seqs.JsSlice(filtered, start, start + PostsPerPage)
  }

  function Min(a: int, b: int): int {
    if a < b then a else b
  }

  /** The pages `1..k` of `filtered`, one after the other. */
  function PagesUpTo(filtered: seq<Page>, k: nat): seq<Page> {
    if k == 0 then [] else PagesUpTo(filtered, k - 1) + PaginatedPosts(filtered, k)
  }

  /** The first `k` pages are the first `9k` posts (or all of them). */
  lemma {:induction false} PagesUpToIsPrefix(filtered: seq<Page>, k: nat)
    ensures PagesUpTo(filtered, k) == filtered[..Min(k * PostsPerPage, |filtered|)]
  {
    if k > 0 {
      PagesUpToIsPrefix(filtered, k - 1);
      var a := Min((k - 1) * PostsPerPage, |filtered|);
      var b := Min(k * PostsPerPage, |filtered|);
      assert filtered[..a] + filtered[a..b] == filtered[..b];
    }
  }

  /** Pages `1..totalPages` together reproduce the filtered posts exactly. */
  lemma PagesCoverFiltered(filtered: seq<Page>)
    ensures PagesUpTo(filtered, TotalPages(|filtered|)) == filtered
  {
    PagesUpToIsPrefix(filtered, TotalPages(|filtered|));
  }

  /** A page past the last one is empty. */
  lemma PageBeyondLastIsEmpty(filtered: seq<Page>, page: int)
    requires page > TotalPages(|filtered|)
    ensures PaginatedPosts(filtered, page) == []
  {
  }

  // Table rows

  /** The date column: the localised start date, or the "Date not set" placeholder. */
  datatype DateCell = DateNotSet | LocalizedDate(start: string)

  /** One rendered table row: date, linked title and category badge. */
  datatype Row = Row(id: string, date: DateCell, title: string, slug: string, badge: string)

  /** The text of the first span of a `rich_text`-typed `slug` property. */
  function SlugText(post: Page): Option<string> {
    match Lookup(post.properties, "slug")
    case Some(RichTextProperty(spans)) => if spans == [] then None else Some(spans[0].plainText)
    case _ => None
  }

  /** Whether the `title` property is title-typed with at least one span. */
  predicate HasTitleSpan(post: Page) {
    "title" in post.properties && post.properties["title"].Title? && post.properties["title"].title != []
  }

  /** The row title: the untrimmed first span of a title-typed `title`, or "Untitled". */
  function RowTitle(post: Page): (r: string)
    ensures HasTitleSpan(post) ==> r == post.properties["title"].title[0].plainText
    ensures !HasTitleSpan(post) ==> r == "Untitled"
  {
    match Lookup(post.properties, "title")
    case Some(Title(spans)) => if spans == [] then "Untitled" else spans[0].plainText
    case _ => "Untitled"
  }

  /** The date cell: set only for a date-typed `Publication Date` with a non-empty start. */
  function RowDate(post: Page): (r: DateCell)
    ensures r.LocalizedDate? ==> r.start != "" && Lookup(post.properties, "Publication Date") == Some(Date(Some(r.start)))
    ensures var v := Lookup(post.properties, "Publication Date");
      v.Some? && v.value.Date? && v.value.start.Some? && v.value.start.value != ""
      ==> r == LocalizedDate(v.value.start.value)
  {
    match Lookup(post.properties, "Publication Date")
    case Some(Date(Some(start))) => if start == "" then DateNotSet else LocalizedDate(start)
    case _ => DateNotSet
  }

  /** The badge: the category's label, with "글 보기" standing in for the catch-all. */
  function Badge(c: Category): (r: string)
    ensures r != Label(Etc)
    ensures c != Etc ==> r == Label(c)
    ensures c == Etc ==> r == "글 보기"
  {
    if c == Etc then "글 보기" else Label(c)
  }

  /** The row a post renders as, or nothing when it has no usable slug. */
  function RowOf(post: Page): (r: Option<Row>)
    ensures r.Some? <==> SlugText(post).Some? && SlugText(post).value != ""
    ensures r.Some? ==> r.value.slug == SlugText(post).value && r.value.id == post.id
    ensures r.Some? ==> r.value.title == RowTitle(post) && r.value.date == RowDate(post)
    ensures r.Some? ==> r.value.badge == Badge(GetPostCategory(post))
  {
    match SlugText(post)
    case Some(slug) =>
      if slug == "" then None
      else Some(Row(post.id, RowDate(post), RowTitle(post), slug, Badge(GetPostCategory(post))))
    case None => None
  }

  /** Whether a post renders as a row. */
  predicate HasRow(post: Page) { RowOf(post).Some? }

  /**
   * The rows of a page of posts, skipping posts without a usable slug: the k-th row
   * is the row of the k-th post that has one, so rows keep the order of the page.
   */
  function Rows(page: seq<Page>): (r: seq<Row>)
    ensures |r| == |Seqs.Filter(page, HasRow)|
    ensures forall k :: 0 <= k < |r| ==> RowOf(Seqs.Filter(page, HasRow)[k]) == Some(r[k])
  {
    if page == [] then []
    else
      var init, last := page[..|page| - 1], page[|page| - 1];
      Rows(init) + (match RowOf(last) case Some(row) => [row] case None => [])
  }

  /** Every post with a usable slug gets its row. */
  lemma RowsComplete(page: seq<Page>, i: nat)
    requires i < |page| && RowOf(page[i]).Some?
    ensures RowOf(page[i]).value in Rows(page)
  {
    var withRow := Seqs.Filter(page, HasRow);
    var k :| 0 <= k < |withRow| && withRow[k] == page[i];
    assert RowOf(page[i]) == Some(Rows(page)[k]);
  }

  /** Unlike the post's title text, the row never falls back to the `Name` property. */
  lemma RowTitleIgnoresName(post: Page)
    requires "title" !in post.properties
    ensures RowTitle(post) == "Untitled"
  {
  }

  /**
   * The object behind the post section: the posts it was given and its two state
   * fields, the selected tab and the current page.
   */
  class PostsSectionState {
    var posts: seq<Page>
    var selectedCategory: Tab
    var currentPage: int

    /** The page number is never below 1. */
    predicate Valid()
      reads this
    {
      currentPage >= 1
    }

    /** The first render: the default tab and page 1. */
    constructor(posts: seq<Page>)
      ensures Valid()
      ensures this.posts == posts && selectedCategory == DefaultCategory && currentPage == 1
    {
      this.posts := posts;
      selectedCategory := DefaultCategory;
      currentPage := 1;
    }

    /** The posts listed under the selected tab. */
    function Filtered(): seq<Page>
      reads this
    {
      FilteredPosts(posts, selectedCategory)
    }

    function LastPage(): (r: nat)
      reads this
      ensures r >= 1
    {
      TotalPages(|Filtered()|)
    }

    /** The page actually shown, which lies in `[1, LastPage()]` in every valid state. */
    function ShownPage(): (r: int)
      reads this
      ensures Valid() ==> 1 <= r <= LastPage()
    {
      SafeCurrentPage(currentPage, LastPage())
    }

    /** The posts on the shown page: at most nine, all listed under the selected tab. */
    function Visible(): (r: seq<Page>)
      reads this
      requires Valid()
      ensures |r| <= PostsPerPage
      ensures forall i :: 0 <= i < |r| ==> r[i] in posts && Listed(selectedCategory, r[i])
    {
      var filtered := Filtered();
      var page := ShownPage();
      var r := PaginatedPosts(filtered, page);
      assert forall i :: 0 <= i < |r| ==> r[i] in filtered;
      r
    }

    /** `handleChangeCategory`: select the tab and go back to page 1. */
    method HandleChangeCategory(category: Tab)
      requires Valid()
      modifies this
      ensures Valid()
      ensures selectedCategory == category && currentPage == 1 && posts == old(posts)
    {
      selectedCategory := category;
      currentPage := 1;
    }

    /** `handleChangePage`: go to `page` unless it lies outside `[1, LastPage()]`. */
    method HandleChangePage(page: int)
      requires Valid()
      modifies this
      ensures Valid()
      ensures posts == old(posts) && selectedCategory == old(selectedCategory)
      ensures page < 1 || page > old(LastPage()) ==> currentPage == old(currentPage)
      ensures 1 <= page <= old(LastPage()) ==> currentPage == page
    {
      if page < 1 || page > LastPage() {
        return;
      }
      currentPage := page;
    }

    /** A re-render with new posts: the state fields keep their values. */
    method ReceivePosts(newPosts: seq<Page>)
      requires Valid()
      modifies this
      ensures Valid()
      ensures posts == newPosts
      ensures selectedCategory == old(selectedCategory) && currentPage == old(currentPage)
    {
      posts := newPosts;
    }
  }
}
