/**
 * The page script's controller as one object. Its fields are the filter
 * select's value, the script's module-level variables (`currentPage`,
 * `filteredBlogs`, `currentBlogIndex`) and the state the page shows; its
 * methods are the script's functions and event listeners, and change those
 * fields in place. Each method's new state is the matching transition of
 * module Transitions applied to the old state, so the lemmas proved there hold
 * of the object.
 */
module Controller {
  import opened Optional
  import opened Catalog
  import opened Tags
  import opened Pagination
  import opened Slug
  import T = Transitions

  class ViewController {
    /** The hard-coded `blogs` array. */
    const catalog: seq<Blog>
    /** The options populateTagFilter put in the select. */
    const tagOptions: seq<TagOption>

    var selectValue: string
    var currentPage: Page
    var filteredBlogs: seq<Blog>
    var currentBlogIndex: nat
    var mode: T.Mode
    var listCards: seq<Blog>
    var pagerShown: bool
    var pager: Pager
    var detail: T.DetailContent
    var articleNav: T.ArticleNav
    var locationHash: string
    var history: seq<T.HistoryEntry>

    /** The fields as one view value. */
    function State(): T.View
      reads this
    {
      T.View(selectValue, currentPage, filteredBlogs, currentBlogIndex, mode, listCards,
             pagerShown, pager, detail, articleNav, locationHash, history)
    }

    /** The script's declarations and populateTagFilter, at a location whose hash is hash. */
    constructor (blogs: seq<Blog>, hash: string)
      requires UniqueIds(blogs)
      ensures catalog == blogs
      ensures State() == T.Initial(hash)
      ensures exists tags :: && StrictlyAscending(tags)
                             && (forall t :: t in tags <==> TagOccurs(blogs, t))
                             && tagOptions == TagFilterOptions(tags)
    {
      catalog := blogs;
      var uniqueTags := GetUniqueTags(blogs);
      tagOptions := TagFilterOptions(uniqueTags);
      selectValue := AllTag;
      currentPage := 1;
      filteredBlogs := [];
      currentBlogIndex := 0;
      mode := T.Unrendered;
      listCards := [];
      pagerShown := true;
      pager := Pager(false, false, "");
      detail := T.NoContent;
      articleNav := T.ArticleNav(false, false);
      locationHash := hash;
      history := [];
    }

    /** updatePaginationControls. */
    method UpdatePaginationControls()
      modifies this`pager
      ensures pager == PaginationControls(currentPage, |filteredBlogs|)
    {
      var totalPages := TotalPages(|filteredBlogs|);
      pager := Pager(currentPage <= 1, currentPage >= totalPages, PageInfoText(currentPage, totalPages));
    }

    /** updateArticleNavigationButtons. */
    method UpdateArticleNavigationButtons()
      modifies this`articleNav
      ensures articleNav == T.ArticleNavigation(currentBlogIndex, |filteredBlogs|)
    {
      articleNav := T.ArticleNav(currentBlogIndex <= 0, currentBlogIndex >= |filteredBlogs| - 1);
    }

    /** displayBlogList(filterTag, page). */
    method DisplayBlogList(filterTag: string, page: Page)
      modifies this
      ensures State() == T.DisplayBlogList(old(State()), catalog, filterTag, page)
    {
      ghost var v0 := State();
      filteredBlogs := FilterSort(catalog, filterTag);
      currentPage := page;
      assert State() == v0.(filteredBlogs := filteredBlogs, currentPage := page);
      RenderPage();
    }

    /** The rest of displayBlogList: the cards of the current page, or the
        empty-list message. */
    method RenderPage()
      modifies this
      ensures State() == T.RenderPage(old(State()))
    {
      ghost var v0 := State();
      var blogsToDisplay := PageSlice(filteredBlogs, currentPage);
      listCards := [];
      if blogsToDisplay == [] {
        pagerShown := false;
        assert State() == v0.(listCards := [], pagerShown := false);
        return;
      }
      pagerShown := true;
      listCards := blogsToDisplay;
      UpdatePaginationControls();
      mode := T.List;
      locationHash := T.ListEntry.hash;
      history := history + [T.ListEntry];
      assert State() == v0.(listCards := blogsToDisplay, pagerShown := true, pager := pager, mode := T.List,
                            locationHash := T.ListEntry.hash, history := v0.history + [T.ListEntry]);
    }

    /** showBlogDetail(blogId), the fetch of its fragment settling as fetch. */
    method ShowBlogDetail(blogId: int, fetch: T.Fetch)
      modifies this
      ensures State() == T.ShowBlogDetail(old(State()), blogId, fetch)
    {
      ghost var v0 := State();
      var found := IndexOfId(filteredBlogs, blogId);
      if found.None? {
        return;
      }
      currentBlogIndex := found.value;
      var blog := filteredBlogs[currentBlogIndex];
      match fetch {
        case FetchFailed =>
          detail := T.LoadError;
          assert State() == v0.(currentBlogIndex := found.value, detail := T.LoadError);
        case Fetched(body) =>
          detail := T.Article(blog, body);
          UpdateArticleNavigationButtons();
          mode := T.Detail;
          var newHash := EncodeHash(blog.contentFile);
          locationHash := newHash;
          history := history + [T.HistoryEntry(Some(blogId), newHash)];
          assert State() == v0.(currentBlogIndex := found.value, detail := T.Article(blog, body),
                                articleNav := articleNav, mode := T.Detail, locationHash := newHash,
                                history := v0.history + [T.HistoryEntry(Some(blogId), newHash)]);
      }
    }

    /** The back-to-list button's listener. */
    method BackToList()
      modifies this
      ensures State() == T.BackToList(old(State()), catalog)
    {
      ghost var v0 := State();
      DisplayBlogList(selectValue, currentPage);
      ghost var w := State();
      assert w == T.DisplayBlogList(v0, catalog, v0.selectValue, v0.currentPage);
      locationHash := T.ListEntry.hash;
      history := history + [T.ListEntry];
      assert State() == w.(locationHash := T.ListEntry.hash, history := w.history + [T.ListEntry]);
    }

    /** The previous-article button's listener. */
    method PrevArticle(fetch: T.Fetch)
      modifies this
      ensures State() == T.PrevArticle(old(State()), fetch)
    {
      if currentBlogIndex > 0 {
        if currentBlogIndex - 1 < |filteredBlogs| {
          ShowBlogDetail(filteredBlogs[currentBlogIndex - 1].id, fetch);
        }
        // otherwise the entry is undefined, reading its id throws and the listener stops
      }
    }

    /** The next-article button's listener. */
    method NextArticle(fetch: T.Fetch)
      modifies this
      ensures State() == T.NextArticle(old(State()), fetch)
    {
      if currentBlogIndex < |filteredBlogs| - 1 {
        ShowBlogDetail(filteredBlogs[currentBlogIndex + 1].id, fetch);
      }
    }

    /** The select's change listener, the user having chosen value. */
    method ChangeFilter(value: string)
      modifies this
      ensures State() == T.ChangeFilter(old(State()), catalog, value)
    {
      selectValue := value;
      DisplayBlogList(selectValue, 1);
    }

    /** The previous-page button's listener. */
    method PrevPage()
      modifies this
      ensures State() == T.PrevPage(old(State()), catalog)
    {
      if currentPage > 1 {
        DisplayBlogList(selectValue, currentPage - 1);
      }
    }

    /** The next-page button's listener. */
    method NextPage()
      modifies this
      ensures State() == T.NextPage(old(State()), catalog)
    {
      var totalPages := TotalPages(|filteredBlogs|);
      if currentPage < totalPages {
        DisplayBlogList(selectValue, currentPage + 1);
      }
    }

    /** The popstate listener, the browser having moved to an entry whose URL has hash. */
    method Popstate(hash: string, fetch: T.Fetch)
      modifies this
      ensures State() == T.Popstate(old(State()), catalog, hash, fetch)
    {
      locationHash := hash;
      var blogFromUrl := T.PostOfHash(catalog, hash);
      if blogFromUrl.Some? {
        filteredBlogs := SortByIdDesc(catalog);
        ShowBlogDetail(blogFromUrl.value.id, fetch);
      } else {
        DisplayBlogList(selectValue, currentPage);
      }
    }

    /** The initial load at the end of the script. */
    method InitialLoad(fetch: T.Fetch)
      modifies this
      ensures State() == T.InitialLoad(old(State()), catalog, fetch)
    {
      var blogFileFromUrl := InitialFile(locationHash);
      filteredBlogs := SortByIdDesc(catalog);
      if blogFileFromUrl.Some? {
        var blogFromUrl := FindByFile(filteredBlogs, blogFileFromUrl.value);
        if blogFromUrl.Some? {
          currentPage := 1;
          ShowBlogDetail(blogFromUrl.value.id, fetch);
        } else {
          DisplayBlogList(AllTag, 1);
        }
      } else {
        DisplayBlogList(AllTag, 1);
      }
    }
  }
}
