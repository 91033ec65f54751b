/**
 * The view state of the blog page as one value, and one function per
 * transition of the controller: displayBlogList, showBlogDetail, the click and
 * change handlers, the popstate handler and the initial load. The class in
 * module Controller performs these transitions in place; the lemmas here state
 * what they guarantee.
 */
module Transitions {
  import opened Optional
  import opened Catalog
  import opened Pagination
  import opened Slug

  /** Which section is active. Until the first switch the page markup decides. */
  datatype Mode = Unrendered | List | Detail

  /** The outcome of fetching `blogs/<contentFile>` and reading its text. */
  datatype Fetch = Fetched(body: string) | FetchFailed

  /** What the detail container shows. */
  datatype DetailContent = NoContent | Article(blog: Blog, body: string) | LoadError

  /** One `history.pushState`: the blogId of its state object (none for `{}`)
      and the hash of its URL. */
  datatype HistoryEntry = HistoryEntry(blogId: Option<int>, hash: string)

  /** The entry pushed when the list is shown: state `{}`, hash cleared. */
  const ListEntry: HistoryEntry := HistoryEntry(None, "")

  /** The disabled flags of the previous/next article buttons. */
  datatype ArticleNav = ArticleNav(prevDisabled: bool, nextDisabled: bool)

  /**
   * selectValue .. currentBlogIndex are the select's value and the three
   * module-level variables; the rest is what the page shows: the active
   * section, the cards of the list (none: the empty-list message), whether the
   * pagination controls are displayed and their state, the detail container,
   * the article buttons, the location's hash and the pushed history entries.
   */
  datatype View = View(
    selectValue: string,
    currentPage: Page,
    filteredBlogs: seq<Blog>,
    currentBlogIndex: nat,
    mode: Mode,
    listCards: seq<Blog>,
    pagerShown: bool,
    pager: Pager,
    detail: DetailContent,
    articleNav: ArticleNav,
    locationHash: string,
    history: seq<HistoryEntry>)

  /** The state once the script has run its declarations and filled the select. */
  function Initial(hash: string): View
  {
    View(AllTag, 1, [], 0, Unrendered, [], true, Pager(false, false, ""), NoContent,
         ArticleNav(false, false), hash, [])
  }

  /** updateArticleNavigationButtons. */
  function ArticleNavigation(index: nat, count: nat): (r: ArticleNav)
    ensures r.prevDisabled <==> index == 0
    ensures r.nextDisabled <==> index + 1 >= count
  {
    ArticleNav(index <= 0, index >= count - 1)
  }

  /** The rendering half of displayBlogList: page v.currentPage of
      v.filteredBlogs as cards, or the empty-list message. */
  function RenderPage(v: View): View
  {
    var shown := PageSlice(v.filteredBlogs, v.currentPage);
    if shown == [] then
      v.(listCards := [], pagerShown := false)
    else
      v.(listCards := shown, pagerShown := true,
         pager := PaginationControls(v.currentPage, |v.filteredBlogs|), mode := List,
         locationHash := ListEntry.hash, history := v.history + [ListEntry])
  }

  /** displayBlogList(filterTag, page). */
  function DisplayBlogList(v: View, catalog: seq<Blog>, filterTag: string, page: Page): View
  {
    RenderPage(v.(filteredBlogs := FilterSort(catalog, filterTag), currentPage := page))
  }

  /** showBlogDetail(blogId), with the fetch already settled. */
  function ShowBlogDetail(v: View, blogId: int, fetch: Fetch): View
  {
    match IndexOfId(v.filteredBlogs, blogId)
    case None => v
    case Some(i) =>
      var blog := v.filteredBlogs[i];
      match fetch
      case FetchFailed => v.(currentBlogIndex := i, detail := LoadError)
      case Fetched(body) =>
        var hash := EncodeHash(blog.contentFile);
        v.(currentBlogIndex := i, detail := Article(blog, body),
           articleNav := ArticleNavigation(i, |v.filteredBlogs|), mode := Detail,
           locationHash := hash, history := v.history + [HistoryEntry(Some(blogId), hash)])
  }

  /** The back-to-list button: displayBlogList at the select's value and the
      current page, then a second push of a cleared hash. */
  function BackToList(v: View, catalog: seq<Blog>): View
  {
    var w := DisplayBlogList(v, catalog, v.selectValue, v.currentPage);
    w.(locationHash := ListEntry.hash, history := w.history + [ListEntry])
  }

  /** The previous-article button. When the index has outlived a shorter list,
      `filteredBlogs[i - 1]` is undefined and reading its id throws: the handler
      stops and nothing changes. */
  function PrevArticle(v: View, fetch: Fetch): View
  {
    if v.currentBlogIndex > 0 then
      if v.currentBlogIndex - 1 < |v.filteredBlogs| then
        ShowBlogDetail(v, v.filteredBlogs[v.currentBlogIndex - 1].id, fetch)
      else v
    else v
  }

  /** The next-article button. */
  function NextArticle(v: View, fetch: Fetch): View
  {
    if v.currentBlogIndex < |v.filteredBlogs| - 1 then
      ShowBlogDetail(v, v.filteredBlogs[v.currentBlogIndex + 1].id, fetch)
    else v
  }

  /** The select's change handler, the select now holding value. */
  function ChangeFilter(v: View, catalog: seq<Blog>, value: string): View
  {
    DisplayBlogList(v.(selectValue := value), catalog, value, 1)
  }

  /** The previous-page button. */
  function PrevPage(v: View, catalog: seq<Blog>): View
  {
    if v.currentPage > 1 then DisplayBlogList(v, catalog, v.selectValue, v.currentPage - 1) else v
  }

  /** The next-page button; its bound is the page count of the current filteredBlogs. */
  function NextPage(v: View, catalog: seq<Blog>): View
  {
    if v.currentPage < TotalPages(|v.filteredBlogs|) then
      DisplayBlogList(v, catalog, v.selectValue, v.currentPage + 1)
    else v
  }

  /** The post a hash names, for the popstate handler. */
  function PostOfHash(catalog: seq<Blog>, hash: string): Option<Blog>
  {
    match DecodeHash(hash)
    case Some(file) => FindByFile(catalog, file)
    case None => None
  }

  /** The popstate handler, the browser having moved to an entry whose URL has hash. */
  function Popstate(v: View, catalog: seq<Blog>, hash: string, fetch: Fetch): View
  {
    var w := v.(locationHash := hash);
    match PostOfHash(catalog, hash)
    case Some(blog) => ShowBlogDetail(w.(filteredBlogs := SortByIdDesc(catalog)), blog.id, fetch)
    case None => DisplayBlogList(w, catalog, w.selectValue, w.currentPage)
  }

  /** The initial load: sort the whole catalog, then follow a `#/blog-...` hash
      naming a post, or show the first page of all posts. */
  function InitialLoad(v: View, catalog: seq<Blog>, fetch: Fetch): View
  {
    var w := v.(filteredBlogs := SortByIdDesc(catalog));
    var found := match InitialFile(v.locationHash)
                 case Some(file) => FindByFile(w.filteredBlogs, file)
                 case None => None;
    match found
    case Some(blog) => ShowBlogDetail(w.(currentPage := 1), blog.id, fetch)
    case None => DisplayBlogList(w, catalog, AllTag, 1)
  }

  /** The user's and the browser's inputs, as the listeners receive them. */
  datatype Event =
    | PostClicked(blogId: int, fetch: Fetch)
    | BackClicked
    | PrevArticleClicked(fetch: Fetch)
    | NextArticleClicked(fetch: Fetch)
    | FilterChanged(value: string)
    | PrevPageClicked
    | NextPageClicked
    | HistoryPopped(hash: string, fetch: Fetch)

  /** The listener each event runs. */
  function Step(v: View, catalog: seq<Blog>, e: Event): View
  {
    match e
    case PostClicked(blogId, fetch) => ShowBlogDetail(v, blogId, fetch)
    case BackClicked => BackToList(v, catalog)
    case PrevArticleClicked(fetch) => PrevArticle(v, fetch)
    case NextArticleClicked(fetch) => NextArticle(v, fetch)
    case FilterChanged(value) => ChangeFilter(v, catalog, value)
    case PrevPageClicked => PrevPage(v, catalog)
    case NextPageClicked => NextPage(v, catalog)
    case HistoryPopped(hash, fetch) => Popstate(v, catalog, hash, fetch)
  }

  function Run(v: View, catalog: seq<Blog>, events: seq<Event>): View
    decreases |events|
  {
    if events == [] then v else Run(Step(v, catalog, events[0]), catalog, events[1..])
  }

  // ---------------------------------------------------------------------------
  // The invariant

  /** A pushed entry names a post of the catalog by id and by its slug, or is the list entry. */
  ghost predicate EntryNamesPost(e: HistoryEntry, catalog: seq<Blog>)
  {
    match e.blogId
    case None => e.hash == ListEntry.hash
    case Some(id) => exists b :: b in catalog && b.id == id && e.hash == EncodeHash(b.contentFile)
  }

  /** Ids unique in the catalog; the filtered list is a newest-first selection of
      catalog posts; every history entry names a catalog post; a shown article
      is a catalog post. */
  ghost predicate Valid(v: View, catalog: seq<Blog>)
  {
    && UniqueIds(catalog)
    && DescendingIds(v.filteredBlogs)
    && (forall b :: b in v.filteredBlogs ==> b in catalog)
    && (forall e :: e in v.history ==> EntryNamesPost(e, catalog))
    && (v.detail.Article? ==> v.detail.blog in catalog)
  }

  /** The fragment files are unique and of the form X.html. */
  ghost predicate WellFormedCatalog(catalog: seq<Blog>)
  {
    && UniqueIds(catalog)
    && (forall i, j :: 0 <= i < j < |catalog| ==> catalog[i].contentFile != catalog[j].contentFile)
    && (forall i :: 0 <= i < |catalog| ==> WellFormedFile(catalog[i].contentFile))
  }

  /** The list section shows the current page of the select's filter. */
  ghost predicate ListShown(v: View, catalog: seq<Blog>)
  {
    && v.mode == List
    && v.filteredBlogs == FilterSort(catalog, v.selectValue)
    && v.listCards == PageSlice(v.filteredBlogs, v.currentPage)
    && v.listCards != []
    && v.pagerShown
    && v.pager == PaginationControls(v.currentPage, |v.filteredBlogs|)
  }

  lemma SortedCatalogValid(v: View, catalog: seq<Blog>)
    requires Valid(v, catalog)
    ensures Valid(v.(filteredBlogs := SortByIdDesc(catalog)), catalog)
  {
    SortByIdDescStrict(catalog);
    SortByIdDescPermutes(catalog);
    var sorted := SortByIdDesc(catalog);
    forall b | b in sorted ensures b in catalog {
      assert b in multiset(sorted);
    }
  }

  lemma DisplayBlogListValid(v: View, catalog: seq<Blog>, filterTag: string, page: Page)
    requires Valid(v, catalog)
    ensures Valid(DisplayBlogList(v, catalog, filterTag, page), catalog)
  {
    FilterSortSpec(catalog, filterTag);
  }

  lemma ShowBlogDetailValid(v: View, blogId: int, fetch: Fetch, catalog: seq<Blog>)
    requires Valid(v, catalog)
    ensures Valid(ShowBlogDetail(v, blogId, fetch), catalog)
  {
    match IndexOfId(v.filteredBlogs, blogId)
    case None =>
    case Some(i) =>
      var blog := v.filteredBlogs[i];
      assert blog in catalog;
      assert EntryNamesPost(HistoryEntry(Some(blogId), EncodeHash(blog.contentFile)), catalog);
  }

  lemma PopstateValid(v: View, catalog: seq<Blog>, hash: string, fetch: Fetch)
    requires Valid(v, catalog)
    ensures Valid(Popstate(v, catalog, hash, fetch), catalog)
  {
    var w := v.(locationHash := hash);
    match PostOfHash(catalog, hash)
    case Some(blog) =>
      SortedCatalogValid(w, catalog);
      ShowBlogDetailValid(w.(filteredBlogs := SortByIdDesc(catalog)), blog.id, fetch, catalog);
    case None =>
      DisplayBlogListValid(w, catalog, w.selectValue, w.currentPage);
  }

  lemma BackToListValid(v: View, catalog: seq<Blog>)
    requires Valid(v, catalog)
    ensures Valid(BackToList(v, catalog), catalog)
  {
    DisplayBlogListValid(v, catalog, v.selectValue, v.currentPage);
  }

  lemma PrevArticleValid(v: View, fetch: Fetch, catalog: seq<Blog>)
    requires Valid(v, catalog)
    ensures Valid(PrevArticle(v, fetch), catalog)
  {
    if 0 < v.currentBlogIndex && v.currentBlogIndex - 1 < |v.filteredBlogs| {
      ShowBlogDetailValid(v, v.filteredBlogs[v.currentBlogIndex - 1].id, fetch, catalog);
    }
  }

  lemma NextArticleValid(v: View, fetch: Fetch, catalog: seq<Blog>)
    requires Valid(v, catalog)
    ensures Valid(NextArticle(v, fetch), catalog)
  {
    if v.currentBlogIndex < |v.filteredBlogs| - 1 {
      ShowBlogDetailValid(v, v.filteredBlogs[v.currentBlogIndex + 1].id, fetch, catalog);
    }
  }

  lemma ChangeFilterValid(v: View, catalog: seq<Blog>, value: string)
    requires Valid(v, catalog)
    ensures Valid(ChangeFilter(v, catalog, value), catalog)
  {
    DisplayBlogListValid(v.(selectValue := value), catalog, value, 1);
  }

  lemma PrevPageValid(v: View, catalog: seq<Blog>)
    requires Valid(v, catalog)
    ensures Valid(PrevPage(v, catalog), catalog)
  {
    if v.currentPage > 1 {
      DisplayBlogListValid(v, catalog, v.selectValue, v.currentPage - 1);
    }
  }

  lemma NextPageValid(v: View, catalog: seq<Blog>)
    requires Valid(v, catalog)
    ensures Valid(NextPage(v, catalog), catalog)
  {
    if v.currentPage < TotalPages(|v.filteredBlogs|) {
      DisplayBlogListValid(v, catalog, v.selectValue, v.currentPage + 1);
    }
  }

  /** Every listener keeps the invariant. */
  lemma StepValid(v: View, catalog: seq<Blog>, e: Event)
    requires Valid(v, catalog)
    ensures Valid(Step(v, catalog, e), catalog)
  {
    match e
    case PostClicked(blogId, fetch) => ShowBlogDetailValid(v, blogId, fetch, catalog);
    case BackClicked => BackToListValid(v, catalog);
    case PrevArticleClicked(fetch) => PrevArticleValid(v, fetch, catalog);
    case NextArticleClicked(fetch) => NextArticleValid(v, fetch, catalog);
    case FilterChanged(value) => ChangeFilterValid(v, catalog, value);
    case PrevPageClicked => PrevPageValid(v, catalog);
    case NextPageClicked => NextPageValid(v, catalog);
    case HistoryPopped(hash, fetch) => PopstateValid(v, catalog, hash, fetch);
  }

  lemma {:induction false} RunValid(v: View, catalog: seq<Blog>, events: seq<Event>)
    requires Valid(v, catalog)
    ensures Valid(Run(v, catalog, events), catalog)
    decreases |events|
  {
    if events != [] {
      StepValid(v, catalog, events[0]);
      RunValid(Step(v, catalog, events[0]), catalog, events[1..]);
    }
  }

  lemma InitialLoadValid(hash: string, catalog: seq<Blog>, fetch: Fetch)
    requires UniqueIds(catalog)
    ensures Valid(InitialLoad(Initial(hash), catalog, fetch), catalog)
  {
    var v := Initial(hash);
    SortedCatalogValid(v, catalog);
    var w := v.(filteredBlogs := SortByIdDesc(catalog));
    var found := match InitialFile(hash)
                 case Some(file) => FindByFile(w.filteredBlogs, file)
                 case None => None;
    match found
    case Some(blog) => ShowBlogDetailValid(w.(currentPage := 1), blog.id, fetch, catalog);
    case None => DisplayBlogListValid(w, catalog, AllTag, 1);
  }

  /** Whatever the user and the browser do after the initial load, the invariant holds. */
  lemma ReachableValid(hash: string, catalog: seq<Blog>, fetch: Fetch, events: seq<Event>)
    requires UniqueIds(catalog)
    ensures Valid(Run(InitialLoad(Initial(hash), catalog, fetch), catalog, events), catalog)
  {
    InitialLoadValid(hash, catalog, fetch);
    RunValid(InitialLoad(Initial(hash), catalog, fetch), catalog, events);
  }

  // ---------------------------------------------------------------------------
  // What each transition guarantees

  /** displayBlogList shows the page-th block of at most PageSize posts of the
      newest-first filtered list. When that block is empty it hides the
      pagination controls and returns before the section switch and the push;
      otherwise it shows the list section with controls for that page and pushes
      exactly one list entry. currentPage becomes page either way. */
  lemma DisplayBlogListSpec(v: View, catalog: seq<Blog>, filterTag: string, page: Page)
    ensures var r := DisplayBlogList(v, catalog, filterTag, page);
            && r.filteredBlogs == FilterSort(catalog, filterTag)
            && r.currentPage == page
            && r.listCards == PageSlice(r.filteredBlogs, page)
            && |r.listCards| <= PageSize
            && r.selectValue == v.selectValue && r.currentBlogIndex == v.currentBlogIndex
            && r.detail == v.detail && r.articleNav == v.articleNav
            && (r.listCards == [] <==> page > TotalPages(|r.filteredBlogs|))
            && (r.listCards == [] ==>
                  !r.pagerShown && r.pager == v.pager && r.mode == v.mode &&
                  r.history == v.history && r.locationHash == v.locationHash)
            && (r.listCards != [] ==>
                  && r.pagerShown && r.mode == List && r.locationHash == ""
                  && r.history == v.history + [ListEntry]
                  && r.pager == PaginationControls(page, |r.filteredBlogs|)
                  && (r.pager.prevDisabled <==> page == 1)
                  && (r.pager.nextDisabled <==> page == TotalPages(|r.filteredBlogs|)))
  {
  }

  /** A filter change always returns to page 1 of the new filter, and when the
      filter keeps some post the list shows that page in sync with the select. */
  lemma ChangeFilterSpec(v: View, catalog: seq<Blog>, value: string)
    ensures ChangeFilter(v, catalog, value).currentPage == 1
    ensures ChangeFilter(v, catalog, value).selectValue == value
    ensures FilterSort(catalog, value) != [] ==> ListShown(ChangeFilter(v, catalog, value), catalog)
  {
  }

  /** "Previous page" moves one page back only above page 1, and otherwise does
      nothing; from a shown list it reaches a shown list. */
  lemma PrevPageSpec(v: View, catalog: seq<Blog>)
    ensures v.currentPage <= 1 ==> PrevPage(v, catalog) == v
    ensures v.currentPage > 1 ==>
              && PrevPage(v, catalog).currentPage == v.currentPage - 1
              && PrevPage(v, catalog).selectValue == v.selectValue
              && PrevPage(v, catalog).filteredBlogs == FilterSort(catalog, v.selectValue)
    ensures ListShown(v, catalog) ==> ListShown(PrevPage(v, catalog), catalog)
  {
  }

  /** "Next page" moves one page on only below the page count of filteredBlogs,
      and otherwise does nothing; from a shown list it reaches a shown list. */
  lemma NextPageSpec(v: View, catalog: seq<Blog>)
    ensures v.currentPage >= TotalPages(|v.filteredBlogs|) ==> NextPage(v, catalog) == v
    ensures v.currentPage < TotalPages(|v.filteredBlogs|) ==>
              && NextPage(v, catalog).currentPage == v.currentPage + 1
              && NextPage(v, catalog).selectValue == v.selectValue
              && NextPage(v, catalog).filteredBlogs == FilterSort(catalog, v.selectValue)
    ensures ListShown(v, catalog) ==> ListShown(NextPage(v, catalog), catalog)
  {
  }

  /** showBlogDetail: an id missing from filteredBlogs changes nothing. Otherwise
      the index points at that post; a failed fetch changes only the index and
      the detail content, with no section switch and no push; a successful one
      shows the article, switches to the detail section, sets the article
      buttons from the index, and pushes exactly one entry naming the post by id
      and by its slug. Filter, page and list are never touched. */
  lemma ShowBlogDetailSpec(v: View, blogId: int, fetch: Fetch)
    ensures var r := ShowBlogDetail(v, blogId, fetch);
            && r.filteredBlogs == v.filteredBlogs && r.selectValue == v.selectValue
            && r.currentPage == v.currentPage && r.listCards == v.listCards
            && r.pager == v.pager && r.pagerShown == v.pagerShown
            && ((forall k :: 0 <= k < |v.filteredBlogs| ==> v.filteredBlogs[k].id != blogId) ==> r == v)
            && ((exists k :: 0 <= k < |v.filteredBlogs| && v.filteredBlogs[k].id == blogId) ==>
                  && r.currentBlogIndex < |r.filteredBlogs|
                  && r.filteredBlogs[r.currentBlogIndex].id == blogId
                  && (fetch.FetchFailed? ==>
                        r == v.(currentBlogIndex := r.currentBlogIndex, detail := LoadError))
                  && (fetch.Fetched? ==>
                        var blog := r.filteredBlogs[r.currentBlogIndex];
                        && r.mode == Detail
                        && r.detail == Article(blog, fetch.body)
                        && (r.articleNav.prevDisabled <==> r.currentBlogIndex == 0)
                        && (r.articleNav.nextDisabled <==> r.currentBlogIndex == |r.filteredBlogs| - 1)
                        && r.history == v.history + [HistoryEntry(Some(blogId), EncodeHash(blog.contentFile))]
                        && r.locationHash == EncodeHash(blog.contentFile)))
  {
  }

  /** The article buttons step to the neighbouring post only when it exists, so
      an index inside the list stays inside it; at either end they do nothing. */
  lemma ArticleStepSpec(v: View, catalog: seq<Blog>, fetch: Fetch)
    requires Valid(v, catalog)
    ensures v.currentBlogIndex == 0 ==> PrevArticle(v, fetch) == v
    ensures 0 < v.currentBlogIndex < |v.filteredBlogs| ==>
              PrevArticle(v, fetch).currentBlogIndex == v.currentBlogIndex - 1
    ensures v.currentBlogIndex + 1 >= |v.filteredBlogs| ==> NextArticle(v, fetch) == v
    ensures v.currentBlogIndex + 1 < |v.filteredBlogs| ==>
              NextArticle(v, fetch).currentBlogIndex == v.currentBlogIndex + 1
    ensures v.currentBlogIndex < |v.filteredBlogs| ==>
              && PrevArticle(v, fetch).currentBlogIndex < |PrevArticle(v, fetch).filteredBlogs|
              && NextArticle(v, fetch).currentBlogIndex < |NextArticle(v, fetch).filteredBlogs|
  {
    var i := v.currentBlogIndex;
    if 0 < i < |v.filteredBlogs| {
      IndexOfOwnId(v.filteredBlogs, i - 1);
    }
    if i + 1 < |v.filteredBlogs| {
      IndexOfOwnId(v.filteredBlogs, i + 1);
    }
  }

  /** Back to list returns to the select's filter at the current page and pushes
      a cleared hash a second time after displayBlogList's own push. */
  lemma BackToListSpec(v: View, catalog: seq<Blog>)
    ensures var r := BackToList(v, catalog);
            && r.selectValue == v.selectValue && r.currentPage == v.currentPage
            && r.filteredBlogs == FilterSort(catalog, v.selectValue)
            && r.locationHash == ""
            && (PageSlice(r.filteredBlogs, v.currentPage) != [] ==>
                  r.mode == List && r.history == v.history + [ListEntry, ListEntry])
            && (PageSlice(r.filteredBlogs, v.currentPage) == [] ==>
                  r.history == v.history + [ListEntry])
  {
  }

  /** Opening a post from a shown list and going back restores the same list:
      filter, page, cards and controls. */
  lemma DetailThenBackRestoresList(v: View, catalog: seq<Blog>, blogId: int, fetch: Fetch)
    requires ListShown(v, catalog)
    ensures var u := BackToList(ShowBlogDetail(v, blogId, fetch), catalog);
            && ListShown(u, catalog)
            && u.selectValue == v.selectValue && u.currentPage == v.currentPage
            && u.filteredBlogs == v.filteredBlogs && u.listCards == v.listCards
            && u.pager == v.pager
  {
  }

  /** Going back or forward to an entry the page pushed for a post shows that
      post again: the whole catalog newest first, the index on the post, the
      article in the detail section, and the same entry pushed once more. */
  lemma PoppedPostEntryShowsPost(v: View, catalog: seq<Blog>, e: HistoryEntry, body: string)
    requires Valid(v, catalog) && WellFormedCatalog(catalog)
    requires e in v.history && e.blogId.Some?
    ensures var r := Popstate(v, catalog, e.hash, Fetched(body));
            && r.mode == Detail
            && r.filteredBlogs == SortByIdDesc(catalog)
            && r.currentBlogIndex < |r.filteredBlogs|
            && r.filteredBlogs[r.currentBlogIndex].id == e.blogId.value
            && r.detail == Article(r.filteredBlogs[r.currentBlogIndex], body)
            && r.history == v.history + [e]
  {
    assert EntryNamesPost(e, catalog);
    var b :| b in catalog && b.id == e.blogId.value && e.hash == EncodeHash(b.contentFile);
    var k :| 0 <= k < |catalog| && catalog[k] == b;
    SlugRoundTrip(b.contentFile);
    var found := FindByFile(catalog, b.contentFile);
    assert found.Some?;
    var k2 :| 0 <= k2 < |catalog| && catalog[k2] == found.value;
    assert k2 == k;
    assert PostOfHash(catalog, e.hash) == Some(b);
    var sorted := SortByIdDesc(catalog);
    SortByIdDescStrict(catalog);
    SortByIdDescPermutes(catalog);
    assert b in multiset(sorted);
    var j :| 0 <= j < |sorted| && sorted[j] == b;
    IndexOfOwnId(sorted, j);
  }

  /** Going back or forward to a list entry shows the list at the select's
      filter and the current page. */
  lemma PoppedListEntryShowsList(v: View, catalog: seq<Blog>, fetch: Fetch)
    ensures Popstate(v, catalog, ListEntry.hash, fetch) ==
            DisplayBlogList(v.(locationHash := ""), catalog, v.selectValue, v.currentPage)
  {
  }

  /** In every state the page can reach, going back or forward to any entry it
      pushed for a post shows that post. */
  lemma ReachableHistoryShowsPosts(hash: string, catalog: seq<Blog>, fetch: Fetch,
                                   events: seq<Event>, e: HistoryEntry, body: string)
    requires WellFormedCatalog(catalog)
    requires e in Run(InitialLoad(Initial(hash), catalog, fetch), catalog, events).history
    requires e.blogId.Some?
    ensures var v := Run(InitialLoad(Initial(hash), catalog, fetch), catalog, events);
            var r := Popstate(v, catalog, e.hash, Fetched(body));
            && r.mode == Detail
            && r.currentBlogIndex < |r.filteredBlogs|
            && r.filteredBlogs[r.currentBlogIndex].id == e.blogId.value
  {
    ReachableValid(hash, catalog, fetch, events);
    var v := Run(InitialLoad(Initial(hash), catalog, fetch), catalog, events);
    PoppedPostEntryShowsPost(v, catalog, e, body);
  }

  /** Initial load with a hash pushed for a post whose slug starts with `blog-`
      opens that post at page 1 of the whole catalog, newest first. */
  lemma InitialLoadDeepLink(catalog: seq<Blog>, k: nat, body: string)
    requires WellFormedCatalog(catalog) && k < |catalog|
    requires HasPrefix(catalog[k].contentFile[..|catalog[k].contentFile| - |HtmlExt|], BlogPrefix)
    ensures var r := InitialLoad(Initial(EncodeHash(catalog[k].contentFile)), catalog, Fetched(body));
            && r.mode == Detail && r.currentPage == 1 && r.selectValue == AllTag
            && r.filteredBlogs == SortByIdDesc(catalog)
            && r.currentBlogIndex < |r.filteredBlogs|
            && r.filteredBlogs[r.currentBlogIndex] == catalog[k]
            && r.history == [HistoryEntry(Some(catalog[k].id), EncodeHash(catalog[k].contentFile))]
  {
    var b := catalog[k];
    var v := Initial(EncodeHash(b.contentFile));
    InitialSlugRoundTrip(b.contentFile);
    var sorted := SortByIdDesc(catalog);
    SortByIdDescStrict(catalog);
    SortByIdDescPermutes(catalog);
    var found := FindByFile(sorted, b.contentFile);
    assert b in multiset(sorted);
    assert found.Some?;
    assert found.value in multiset(catalog);
    var k2 :| 0 <= k2 < |catalog| && catalog[k2] == found.value;
    assert k2 == k;
    var w := v.(filteredBlogs := sorted, currentPage := 1);
    assert InitialLoad(v, catalog, Fetched(body)) == ShowBlogDetail(w, b.id, Fetched(body));
    var j :| 0 <= j < |sorted| && sorted[j] == b;
    IndexOfOwnId(sorted, j);
  }

  /** Initial load without a `#/blog-...` hash shows page 1 of all posts with the
      select on "all"; so does one whose slug names no post. */
  lemma InitialLoadFallsBackToList(hash: string, catalog: seq<Blog>, fetch: Fetch)
    requires UniqueIds(catalog)
    requires InitialFile(hash).None? ||
             forall b :: b in catalog ==> b.contentFile != InitialFile(hash).value
    ensures var r := InitialLoad(Initial(hash), catalog, fetch);
            && r.selectValue == AllTag && r.currentPage == 1
            && r.filteredBlogs == FilterSort(catalog, AllTag)
            && r.history == (if catalog == [] then [] else [ListEntry])
            && (catalog != [] ==> ListShown(r, catalog))
  {
    var v := Initial(hash);
    var sorted := SortByIdDesc(catalog);
    SortByIdDescPermutes(catalog);
    var w := v.(filteredBlogs := sorted);
    if InitialFile(hash).Some? {
      forall b | b in sorted ensures b.contentFile != InitialFile(hash).value {
        assert b in multiset(sorted);
      }
    }
    assert InitialLoad(v, catalog, fetch) == DisplayBlogList(w, catalog, AllTag, 1);
    FilterSortSpec(catalog, AllTag);
    var filtered := FilterSort(catalog, AllTag);
    assert |filtered| == |catalog| by {
      assert |multiset(filtered)| == |multiset(catalog)|;
    }
    assert PageSlice(filtered, 1) == [] <==> catalog == [];
  }
}
