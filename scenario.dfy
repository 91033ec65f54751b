/**
 * The three posts the page script ships with, as test data for the model: what
 * the filter shows for them, and one session of the page over them.
 */
module Scenario {
  import opened Optional
  import opened Catalog
  import opened Pagination
  import opened Slug
  import T = Transitions

  const Title1 := "Artificial Inteligence (AI)"
  const Title2 := "Python for Artificial Inteligence (AI)"
  const Title3 := "Understanding Asynchronous JavaScript"
  const Image1 := "https://okcredit-blog-images-prod.storage.googleapis.com/2020/12/blog4.jpg"
  const Image2 := "https://via.placeholder.com/640x360/555555/EEEEEE?text=Responsive+Design"
  const Image3 := "https://via.placeholder.com/640x360/666666/EEEEEE?text=Async+JS"

  const Post1 := Blog(1, Title1, "October 26, 2023", "10 min read", Image1, "blog-1.html", ["AI"])
  const Post2 := Blog(2, Title2, "October 20, 2023", "7 min read", Image2, "blog-2.html", ["Python", "AI"])
  const Post3 := Blog(3, Title3, "October 15, 2023", "6 min read", Image3, "blog-3.html", ["JavaScript", "Backend"])

  const Sample: seq<Blog> := [Post1, Post2, Post3]

  /** A string without a dot has no `.html` in it. */
  lemma NoDotNoHtml(x: string)
    requires forall k :: 0 <= k < |x| ==> x[k] != '.'
    ensures !ContainsHtml(x)
  {
    forall j ensures !HtmlAt(x, j) {
      if 0 <= j && j + |HtmlExt| <= |x| {
        assert x[j..j + |HtmlExt|][0] == x[j] != '.';
      }
    }
  }

  /** A slug of fragment-safe characters other than '.' makes a well-formed file name. */
  lemma SlugFileWellFormed(x: string)
    requires x != [] && forall k :: 0 <= k < |x| ==> x[k] != '.' && FragmentSafe(x[k])
    ensures WellFormedFile(x + HtmlExt)
  {
    NoDotNoHtml(x);
    var f := x + HtmlExt;
    assert f[..|f| - |HtmlExt|] == x && f[|f| - |HtmlExt|..] == HtmlExt;
  }

  /** The sample posts meet every assumption the routing lemmas make. */
  lemma SampleWellFormed()
    ensures T.WellFormedCatalog(Sample)
  {
    SlugFileWellFormed("blog-1");
    SlugFileWellFormed("blog-2");
    SlugFileWellFormed("blog-3");
    assert "blog-1" + HtmlExt == Post1.contentFile && "blog-2" + HtmlExt == Post2.contentFile
        && "blog-3" + HtmlExt == Post3.contentFile;
  }

  /** No lower-cased tag has an upper-case letter in it. */
  lemma LowerNeverUpper(t: string, value: string)
    requires value != [] && IsUpper(value[0])
    ensures Lower(t) != value
  {
  }

  /** Which sample posts each filter value keeps. */
  lemma SampleKeeps()
    ensures Keeps("ai", Post1) && Keeps("ai", Post2) && !Keeps("ai", Post3)
    ensures !Keeps("AI", Post1) && !Keeps("AI", Post2) && !Keeps("AI", Post3)
  {
    assert Lower("AI") == "ai" by {
      assert LowerChar('A') == 'a' && LowerChar('I') == 'i';
    }
    assert Lower(Post1.tags[0]) == "ai" && Lower(Post2.tags[1]) == "ai";
    assert |Lower("JavaScript")| != 2 && |Lower("Backend")| != 2;
    forall t ensures Lower(t) != "AI" {
      LowerNeverUpper(t, "AI");
    }
  }

  /** "all" lists the three posts newest first; the option value "ai" lists the
      two posts tagged AI; the tag as written, "AI", matches nothing, because the
      comparison is against the lower-cased tag. */
  lemma SampleFilters()
    ensures FilterSort(Sample, AllTag) == [Post3, Post2, Post1]
    ensures FilterSort(Sample, "ai") == [Post2, Post1]
    ensures FilterSort(Sample, "AI") == []
  {
    SampleKeeps();
    assert Sample[1..] == [Post2, Post3] && Sample[1..][1..] == [Post3] && [Post3][1..] == [];
    assert FilterByTag([Post3], "ai") == [];
    assert FilterByTag([Post2, Post3], "ai") == [Post2];
    assert FilterByTag(Sample, "ai") == [Post1, Post2];
    assert SortByIdDesc([Post2]) == [Post2];
    assert InsertById(Post1, [Post2]) == [Post2, Post1];
    assert FilterByTag([Post3], AllTag) == [Post3];
    assert FilterByTag([Post2, Post3], AllTag) == [Post2, Post3];
    assert FilterByTag(Sample, AllTag) == Sample;
    assert SortByIdDesc([Post3]) == [Post3];
    assert InsertById(Post2, [Post3]) == [Post3, Post2];
    assert SortByIdDesc([Post2, Post3]) == [Post3, Post2];
    assert InsertById(Post1, [Post2]) == [Post2, Post1];
    assert InsertById(Post1, [Post3, Post2]) == [Post3, Post2, Post1];
    assert FilterByTag([Post3], "AI") == [];
    assert FilterByTag([Post2, Post3], "AI") == [];
    assert FilterByTag(Sample, "AI") == [];
  }

  /** Opening the page without a hash shows page 1 of all three posts, newest
      first, and pushes one list entry. */
  lemma SampleOpens()
    ensures var v := T.InitialLoad(T.Initial(""), Sample, T.FetchFailed);
            && v.mode == T.List && v.selectValue == AllTag && v.currentPage == 1
            && v.filteredBlogs == [Post3, Post2, Post1] && v.listCards == [Post3, Post2, Post1]
            && v.history == [T.ListEntry]
  {
    SampleFilters();
    var v := T.Initial("");
    var w := v.(filteredBlogs := SortByIdDesc(Sample));
    assert InitialFile("") == None;
    assert T.InitialLoad(v, Sample, T.FetchFailed) == T.DisplayBlogList(w, Sample, AllTag, 1);
    var shown := [Post3, Post2, Post1];
    assert PageSlice(shown, 1) == shown;
  }

  /** The second post is addressed as `#/blog-2`. */
  lemma SecondPostHash()
    ensures EncodeHash(Post2.contentFile) == "#/blog-2"
  {
    var x := "blog-2";
    NoDotNoHtml(x);
    EncodeSlug(x);
    assert HashPrefix + x == "#/blog-2";
    assert x + HtmlExt == Post2.contentFile;
  }

  /** Opening the second post from that list selects index 1, shows the post and
      pushes its slug `#/blog-2`. */
  lemma SampleOpensSecondPost(v: T.View, body: string)
    requires v.filteredBlogs == [Post3, Post2, Post1]
    ensures var r := T.ShowBlogDetail(v, 2, T.Fetched(body));
            && r.mode == T.Detail && r.currentBlogIndex == 1 && r.detail == T.Article(Post2, body)
            && r.selectValue == v.selectValue && r.currentPage == v.currentPage
            && r.history == v.history + [T.HistoryEntry(Some(2), "#/blog-2")]
  {
    assert IndexOfId(v.filteredBlogs, 2) == Some(1);
    SecondPostHash();
  }

  /** Going back from there shows the same list and pushes the list entry twice. */
  lemma SampleBackToList(v: T.View)
    requires v.selectValue == AllTag && v.currentPage == 1
    ensures var r := T.BackToList(v, Sample);
            && r.mode == T.List && r.listCards == [Post3, Post2, Post1]
            && r.history == v.history + [T.ListEntry, T.ListEntry]
  {
    SampleFilters();
    assert PageSlice([Post3, Post2, Post1], 1) == [Post3, Post2, Post1];
    T.BackToListSpec(v, Sample);
  }
}
