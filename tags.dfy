/**
 * The tag list of the filter select: getUniqueTags collects every tag once,
 * in a Set, and sorts the result with the default (string) order;
 * populateTagFilter turns it into the select's options.
 */
module Tags {
  import opened Catalog

  /** The default `sort()` order on strings: character by character, a proper
      prefix first. */
  predicate LexLess(a: string, b: string)
  {
    if a == [] then b != []
    else if b == [] then false
    else a[0] < b[0] || (a[0] == b[0] && LexLess(a[1..], b[1..]))
  }

  lemma {:induction false} LexIrreflexive(a: string)
    ensures !LexLess(a, a)
  {
    if a != [] {
      LexIrreflexive(a[1..]);
    }
  }

  lemma {:induction false} LexTransitive(a: string, b: string, c: string)
    requires LexLess(a, b) && LexLess(b, c)
    ensures LexLess(a, c)
  {
    if a != [] && a[0] == b[0] && b[0] == c[0] {
      LexTransitive(a[1..], b[1..], c[1..]);
    }
  }

  lemma {:induction false} LexTotal(a: string, b: string)
    requires a != b
    ensures LexLess(a, b) || LexLess(b, a)
  {
    if a != [] && b != [] && a[0] == b[0] {
      assert a == [a[0]] + a[1..] && b == [b[0]] + b[1..];
      LexTotal(a[1..], b[1..]);
    }
  }

  predicate StrictlyAscending(s: seq<string>)
  {
    forall i, j :: 0 <= i < j < |s| ==> LexLess(s[i], s[j])
  }

  predicate Distinct(s: seq<string>)
  {
    forall i, j :: 0 <= i < j < |s| ==> s[i] != s[j]
  }

  /** A tag occurs on some post of the catalog. */
  predicate TagOccurs(blogs: seq<Blog>, t: string)
  {
    exists k :: 0 <= k < |blogs| && t in blogs[k].tags
  }

  function InsertTag(x: string, s: seq<string>): (r: seq<string>)
    requires StrictlyAscending(s) && x !in s
    ensures StrictlyAscending(r)
    ensures multiset(r) == multiset(s) + multiset{x}
  {
    if s == [] then [x]
    else if LexLess(x, s[0]) then
      assert forall k | 0 < k < |s| :: LexLess(x, s[k]) by {
        forall k | 0 < k < |s| ensures LexLess(x, s[k]) {
          LexTransitive(x, s[0], s[k]);
        }
      }
      [x] + s
    else
      LexTotal(x, s[0]);
      var rest := InsertTag(x, s[1..]);
      assert s == [s[0]] + s[1..];
      InsertTagHeadBound(x, s, rest);
      [s[0]] + rest
  }

  lemma InsertTagHeadBound(x: string, s: seq<string>, rest: seq<string>)
    requires StrictlyAscending(s) && s != [] && LexLess(s[0], x)
    requires StrictlyAscending(rest) && multiset(rest) == multiset(s[1..]) + multiset{x}
    ensures StrictlyAscending([s[0]] + rest)
  {
    forall k | 0 <= k < |rest| ensures LexLess(s[0], rest[k]) {
      assert rest[k] in multiset(rest);
      assert rest[k] == x || rest[k] in s[1..];
    }
  }

  /** `Array.from(tags).sort()` on the distinct tags of the Set. */
  function SortTags(s: seq<string>): (r: seq<string>)
    requires Distinct(s)
    ensures StrictlyAscending(r)
    ensures multiset(r) == multiset(s)
  {
    if s == [] then []
    else
      var sorted := SortTags(s[1..]);
      assert s == [s[0]] + s[1..];
      assert s[0] !in sorted by {
        assert s[0] !in s[1..];
        assert s[0] !in multiset(s[1..]);
      }
      InsertTag(s[0], sorted)
  }

  /** getUniqueTags: the Set of every tag of every post, then sorted. The result
      is ascending (hence free of duplicates) and holds exactly the tags that
      occur on some post. */
  method GetUniqueTags(blogs: seq<Blog>) returns (tags: seq<string>)
    ensures StrictlyAscending(tags)
    ensures forall t :: t in tags <==> TagOccurs(blogs, t)
  {
    var seen: seq<string> := [];   // a JavaScript Set: insertion order, no duplicates
    var i := 0;
    while i < |blogs|
      invariant 0 <= i <= |blogs|
      invariant Distinct(seen)
      invariant forall t :: t in seen <==> exists k :: 0 <= k < i && t in blogs[k].tags
    {
      var j := 0;
      while j < |blogs[i].tags|
        invariant 0 <= j <= |blogs[i].tags|
        invariant Distinct(seen)
        invariant forall t :: t in seen <==>
                    (exists k :: 0 <= k < i && t in blogs[k].tags) || t in blogs[i].tags[..j]
      {
        var tag := blogs[i].tags[j];
        if tag !in seen {
          seen := seen + [tag];
        }
        assert blogs[i].tags[..j + 1] == blogs[i].tags[..j] + [tag];
        j := j + 1;
      }
      assert blogs[i].tags[..j] == blogs[i].tags;
      i := i + 1;
    }
    tags := SortTags(seen);
    forall t ensures t in tags <==> t in seen {
      assert t in tags <==> t in multiset(tags);
    }
  }

  /** One `<option>` of the tag filter select. */
  datatype TagOption = TagOption(value: string, text: string)

  /** populateTagFilter: the "All" option, then one option per tag whose value is
      the lower-cased tag. */
  function TagFilterOptions(tags: seq<string>): seq<TagOption>
  {
    [TagOption(AllTag, "All")] + seq(|tags|, i requires 0 <= i < |tags| => TagOption(Lower(tags[i]), tags[i]))
  }

  /** Every option of the select lists at least one post when chosen. */
  lemma OptionsSelectSomePost(blogs: seq<Blog>, tags: seq<string>)
    requires UniqueIds(blogs) && blogs != []
    requires forall t :: t in tags ==> TagOccurs(blogs, t)
    ensures forall o :: o in TagFilterOptions(tags) ==> FilterSort(blogs, o.value) != []
  {
    var opts := TagFilterOptions(tags);
    forall o | o in opts ensures FilterSort(blogs, o.value) != [] {
      var n :| 0 <= n < |opts| && opts[n] == o;
      if n == 0 {
        FilterSortSpec(blogs, AllTag);
        assert blogs[0] in FilterSort(blogs, AllTag);
      } else {
        TagSelectsPost(blogs, tags[n - 1]);
      }
    }
  }

  /** The option of a tag keeps every post the tag occurs on, so the option of
      a tag that occurs lists some post. */
  lemma TagSelectsPost(blogs: seq<Blog>, t: string)
    requires UniqueIds(blogs) && TagOccurs(blogs, t)
    ensures forall b :: b in blogs && t in b.tags ==> b in FilterSort(blogs, Lower(t))
    ensures FilterSort(blogs, Lower(t)) != []
  {
    FilterSortSpec(blogs, Lower(t));
    forall b | b in blogs && t in b.tags ensures b in FilterSort(blogs, Lower(t)) {
      var m :| 0 <= m < |b.tags| && b.tags[m] == t;
      assert Keeps(Lower(t), b);
    }
    var k :| 0 <= k < |blogs| && t in blogs[k].tags;
    assert blogs[k] in FilterSort(blogs, Lower(t));
  }
}
