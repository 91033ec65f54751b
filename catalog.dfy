/**
 * The fixed post catalog and the expression-level queries over it that the
 * view controller uses: ASCII lower-casing, the tag filter, the newest-first
 * ordering, and the `find`/`findIndex` lookups.
 */
module Catalog {
  import opened Optional

  /** One post record of the hard-coded `blogs` array. */
  datatype Blog = Blog(id: int, title: string, date: string, readTime: string,
                       imageUrl: string, contentFile: string, tags: seq<string>)

  /** The filter value of the select's "All" option. */
  const AllTag: string := "all"

  predicate IsUpper(c: char) { 'A' <= c <= 'Z' }

  /** The ASCII part of `toLowerCase` on one character. */
  function LowerChar(c: char): (r: char)
    ensures !IsUpper(r)
    ensures !IsUpper(c) ==> r == c
    ensures IsUpper(c) ==> 'a' <= r <= 'z' && r as int - 'a' as int == c as int - 'A' as int
  {
    if IsUpper(c) then (c as int + 32) as char else c
  }

  /** `String.prototype.toLowerCase`, restricted to ASCII letters. */
  function Lower(s: string): (r: string)
    ensures |r| == |s|
    ensures forall i :: 0 <= i < |r| ==> !IsUpper(r[i])
    ensures forall i :: 0 <= i < |r| && !IsUpper(s[i]) ==> r[i] == s[i]
    ensures forall i :: 0 <= i < |s| ==> r[i] == LowerChar(s[i])
  {
    seq(|s|, i requires 0 <= i < |s| => LowerChar(s[i]))
  }

  /** The callback of the `filter` call: the sentinel keeps every post, any other
      value keeps the posts one of whose tags lower-cases to it. */
  predicate Keeps(filterTag: string, b: Blog)
  {
    filterTag == AllTag || exists i :: 0 <= i < |b.tags| && Lower(b.tags[i]) == filterTag
  }

  /** `blogs.filter(...)`: keeps the order of the catalog. */
  function FilterByTag(blogs: seq<Blog>, filterTag: string): seq<Blog>
  {
    if blogs == [] then []
    else
      var rest := FilterByTag(blogs[1..], filterTag);
      if Keeps(filterTag, blogs[0]) then [blogs[0]] + rest else rest
  }

  /** The filter keeps every post it accepts as often as the catalog has it,
      and drops every other post. */
  lemma {:induction false} FilterByTagCounts(blogs: seq<Blog>, filterTag: string)
    ensures forall b :: multiset(FilterByTag(blogs, filterTag))[b] ==
                        if Keeps(filterTag, b) then multiset(blogs)[b] else 0
  {
    if blogs != [] {
      FilterByTagCounts(blogs[1..], filterTag);
      assert blogs == [blogs[0]] + blogs[1..];
    }
  }

  predicate NonIncreasingIds(s: seq<Blog>)
  {
    forall i, j :: 0 <= i < j < |s| ==> s[i].id >= s[j].id
  }

  /** Newest first: ids strictly decreasing along the sequence. */
  predicate DescendingIds(s: seq<Blog>)
  {
    forall i, j :: 0 <= i < j < |s| ==> s[i].id > s[j].id
  }

  predicate UniqueIds(s: seq<Blog>)
  {
    forall i, j :: 0 <= i < j < |s| ==> s[i].id != s[j].id
  }

  /** Places x before the first post whose id is not larger than its own. */
  function InsertById(x: Blog, s: seq<Blog>): (r: seq<Blog>)
    requires NonIncreasingIds(s)
    ensures NonIncreasingIds(r)
    ensures multiset(r) == multiset(s) + multiset{x}
  {
    if s == [] || x.id >= s[0].id then [x] + s
    else
      var rest := InsertById(x, s[1..]);
      assert s == [s[0]] + s[1..];
      InsertByIdHeadBound(x, s, rest);
      [s[0]] + rest
  }

  lemma InsertByIdHeadBound(x: Blog, s: seq<Blog>, rest: seq<Blog>)
    requires NonIncreasingIds(s) && s != [] && x.id < s[0].id
    requires NonIncreasingIds(rest) && multiset(rest) == multiset(s[1..]) + multiset{x}
    ensures NonIncreasingIds([s[0]] + rest)
  {
    forall k | 0 <= k < |rest| ensures s[0].id >= rest[k].id {
      assert rest[k] in multiset(rest);
      assert rest[k] == x || rest[k] in s[1..];
    }
  }

  /** `.sort((a, b) => b.id - a.id)`: newest first. By insertion, each post
      lands after the posts with a larger id and after the equal-id posts that
      come earlier in the input, so the sort is stable. */
  function SortByIdDesc(s: seq<Blog>): (r: seq<Blog>)
    ensures NonIncreasingIds(r)
  {
    if s == [] then [] else InsertById(s[0], SortByIdDesc(s[1..]))
  }

  /** The sort only reorders: it is a permutation of its input. */
  lemma {:induction false} SortByIdDescPermutes(s: seq<Blog>)
    ensures multiset(SortByIdDesc(s)) == multiset(s)
  {
    if s != [] {
      SortByIdDescPermutes(s[1..]);
      assert s == [s[0]] + s[1..];
    }
  }

  lemma {:induction false} InsertByIdStrict(x: Blog, s: seq<Blog>)
    requires DescendingIds(s)
    requires forall y :: y in s ==> y.id != x.id
    ensures DescendingIds(InsertById(x, s))
  {
    if s != [] && x.id < s[0].id {
      InsertByIdStrict(x, s[1..]);
      var rest := InsertById(x, s[1..]);
      forall y | y in rest ensures y.id < s[0].id {
        assert y in multiset(rest);
        assert y == x || y in s[1..];
      }
    }
  }

  /** With unique ids the newest-first order is strict. */
  lemma {:induction false} SortByIdDescStrict(s: seq<Blog>)
    requires UniqueIds(s)
    ensures DescendingIds(SortByIdDesc(s))
  {
    if s != [] {
      SortByIdDescStrict(s[1..]);
      SortByIdDescPermutes(s[1..]);
      var sorted := SortByIdDesc(s[1..]);
      forall y | y in sorted ensures y.id != s[0].id {
        assert y in multiset(sorted);
        assert y in s[1..];
      }
      InsertByIdStrict(s[0], sorted);
    }
  }

  lemma {:induction false} FilterKeepsUniqueIds(s: seq<Blog>, filterTag: string)
    requires UniqueIds(s)
    ensures UniqueIds(FilterByTag(s, filterTag))
  {
    if s != [] {
      FilterKeepsUniqueIds(s[1..], filterTag);
      FilterByTagCounts(s[1..], filterTag);
      var rest := FilterByTag(s[1..], filterTag);
      forall y | y in rest ensures y.id != s[0].id {
        assert y in multiset(rest);
        assert y in s[1..];
      }
    }
  }

  /** The `filteredBlogs` value computed by displayBlogList. */
  function FilterSort(blogs: seq<Blog>, filterTag: string): seq<Blog>
  {
    SortByIdDesc(FilterByTag(blogs, filterTag))
  }

  /** The filtered list is strictly newest first and a permutation of exactly the
      posts the filter keeps; with the sentinel it is a permutation of the catalog. */
  lemma FilterSortSpec(blogs: seq<Blog>, filterTag: string)
    requires UniqueIds(blogs)
    ensures DescendingIds(FilterSort(blogs, filterTag))
    ensures forall b :: multiset(FilterSort(blogs, filterTag))[b] ==
                        if Keeps(filterTag, b) then multiset(blogs)[b] else 0
    ensures forall b :: b in FilterSort(blogs, filterTag) <==> b in blogs && Keeps(filterTag, b)
    ensures filterTag == AllTag ==> multiset(FilterSort(blogs, filterTag)) == multiset(blogs)
  {
    FilterKeepsUniqueIds(blogs, filterTag);
    FilterByTagCounts(blogs, filterTag);
    SortByIdDescStrict(FilterByTag(blogs, filterTag));
    SortByIdDescPermutes(FilterByTag(blogs, filterTag));
    var r := FilterSort(blogs, filterTag);
    forall b ensures b in r <==> b in blogs && Keeps(filterTag, b) {
      assert b in r <==> b in multiset(r);
      assert b in blogs <==> b in multiset(blogs);
    }
  }

  /** `findIndex(b => b.id === blogId)`, which also decides what `find` returns. */
  function IndexOfId(s: seq<Blog>, blogId: int): (r: Option<nat>)
    ensures r.Some? ==> r.value < |s| && s[r.value].id == blogId &&
                        forall k :: 0 <= k < r.value ==> s[k].id != blogId
    ensures r.None? ==> forall k :: 0 <= k < |s| ==> s[k].id != blogId
  {
    if s == [] then None
    else if s[0].id == blogId then Some(0)
    else match IndexOfId(s[1..], blogId)
      case Some(k) => Some(k + 1)
      case None => None
  }

  /** `find(b => b.contentFile === file)`: the first post with that fragment file. */
  function FindByFile(s: seq<Blog>, file: string): (r: Option<Blog>)
    ensures r.Some? ==> r.value in s && r.value.contentFile == file
    ensures r.Some? ==> exists k :: 0 <= k < |s| && s[k] == r.value &&
                                    forall j :: 0 <= j < k ==> s[j].contentFile != file
    ensures r.None? ==> forall k :: 0 <= k < |s| ==> s[k].contentFile != file
  {
    if s == [] then None
    else if s[0].contentFile == file then Some(s[0])
    else FindByFile(s[1..], file)
  }

  /** With unique ids, looking a post's id up finds that very position. */
  lemma IndexOfOwnId(s: seq<Blog>, k: nat)
    requires UniqueIds(s) && k < |s|
    ensures IndexOfId(s, s[k].id) == Some(k)
  {
  }
}
