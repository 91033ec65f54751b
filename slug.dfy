/**
 * The hash routing of the detail view: a post is addressed as `#/` followed by
 * its fragment file name without `.html`; the popstate handler and the initial
 * load turn such a hash back into a file name.
 */
module Slug {
  import opened Optional

  const HtmlExt: string := ".html"
  const HashPrefix: string := "#/"
  /** Initial load only follows slugs that start with this. */
  const BlogPrefix: string := "blog-"

  predicate HasPrefix(s: string, p: string)
  {
    |p| <= |s| && s[..|p|] == p
  }

  /** `.html` occurs in s starting at position i. */
  predicate HtmlAt(s: string, i: int)
  {
    0 <= i && i + |HtmlExt| <= |s| && s[i..i + |HtmlExt|] == HtmlExt
  }

  ghost predicate ContainsHtml(s: string)
  {
    exists i :: HtmlAt(s, i)
  }

  lemma HtmlAtTail(s: string, i: int)
    requires s != [] && i >= 1
    ensures HtmlAt(s, i) <==> HtmlAt(s[1..], i - 1)
  {
    if 0 <= i - 1 && i - 1 + |HtmlExt| <= |s[1..]| {
      assert s[1..][i - 1..i - 1 + |HtmlExt|] == s[i..i + |HtmlExt|];
    }
  }

  /** `contentFile.replace('.html', '')`: with a string pattern only the first
      occurrence is removed. */
  function RemoveFirstHtml(s: string): (r: string)
    ensures !ContainsHtml(s) ==> r == s
    ensures ContainsHtml(s) ==> |r| == |s| - |HtmlExt|
    decreases |s|
  {
    if |s| < |HtmlExt| then s
    else if s[..|HtmlExt|] == HtmlExt then
      assert HtmlAt(s, 0);
      s[|HtmlExt|..]
    else
      assert ContainsHtml(s) <==> ContainsHtml(s[1..]) by {
        if ContainsHtml(s) {
          var i :| HtmlAt(s, i);
          HtmlAtTail(s, i);
        }
        if ContainsHtml(s[1..]) {
          var i :| HtmlAt(s[1..], i);
          HtmlAtTail(s, i + 1);
        }
      }
      [s[0]] + RemoveFirstHtml(s[1..])
  }

  /** What is removed is the first occurrence of `.html`. */
  lemma {:induction false} RemoveFirstHtmlFirst(s: string)
    ensures ContainsHtml(s) ==>
              exists i :: && HtmlAt(s, i)
                          && (forall j :: 0 <= j < i ==> !HtmlAt(s, j))
                          && RemoveFirstHtml(s) == s[..i] + s[i + |HtmlExt|..]
    decreases |s|
  {
    if |s| >= |HtmlExt| && s[..|HtmlExt|] == HtmlExt {
      assert HtmlAt(s, 0);
      assert RemoveFirstHtml(s) == s[..0] + s[|HtmlExt|..];
    } else if |s| >= |HtmlExt| && ContainsHtml(s) {
      assert ContainsHtml(s[1..]) by {
        var i :| HtmlAt(s, i);
        HtmlAtTail(s, i);
      }
      RemoveFirstHtmlFirst(s[1..]);
      var i :| && HtmlAt(s[1..], i)
               && (forall j :: 0 <= j < i ==> !HtmlAt(s[1..], j))
               && RemoveFirstHtml(s[1..]) == s[1..][..i] + s[1..][i + |HtmlExt|..];
      assert !HtmlAt(s, 0);
      FirstHtmlShifts(s, i);
      RemoveFirstHtmlStep(s);
    }
  }

  /** The first `.html` of the tail, at i, is the first `.html` of a string
      that does not start with one, at i + 1. */
  lemma FirstHtmlShifts(s: string, i: nat)
    requires s != [] && !HtmlAt(s, 0)
    requires HtmlAt(s[1..], i) && forall j :: 0 <= j < i ==> !HtmlAt(s[1..], j)
    ensures HtmlAt(s, i + 1) && forall j :: 0 <= j < i + 1 ==> !HtmlAt(s, j)
    ensures s[..i + 1] + s[i + 1 + |HtmlExt|..] == [s[0]] + (s[1..][..i] + s[1..][i + |HtmlExt|..])
  {
    HtmlAtTail(s, i + 1);
    forall j | 0 < j < i + 1 ensures !HtmlAt(s, j) {
      HtmlAtTail(s, j);
    }
    assert s[..i + 1] == [s[0]] + s[1..][..i];
  }

  /** The hash pushed for a post shown in the detail view. */
  function EncodeHash(contentFile: string): string
  {
    HashPrefix + RemoveFirstHtml(contentFile)
  }

  /** The popstate handler's reading of a hash: the file name it names, when it
      starts with `#/` and has a non-empty slug. */
  function DecodeHash(hash: string): (r: Option<string>)
    ensures r.Some? <==> HasPrefix(hash, HashPrefix) && |hash| > |HashPrefix|
    ensures r.Some? ==> |r.value| > |HtmlExt| &&
                        HashPrefix + r.value[..|r.value| - |HtmlExt|] == hash &&
                        r.value[|r.value| - |HtmlExt|..] == HtmlExt
  {
    if HasPrefix(hash, HashPrefix) && hash[|HashPrefix|..] != [] then
      Some(hash[|HashPrefix|..] + HtmlExt)
    else None
  }

  /** The initial load's reading of a hash: as DecodeHash, but only slugs that
      start with `blog-`. */
  function InitialFile(hash: string): (r: Option<string>)
    ensures r.Some? ==> DecodeHash(hash) == r && HasPrefix(r.value, BlogPrefix)
    ensures r.None? && DecodeHash(hash).Some? ==> !HasPrefix(hash[|HashPrefix|..], BlogPrefix)
  {
    if HasPrefix(hash, HashPrefix) then
      var slug := hash[|HashPrefix|..];
      if slug != [] && HasPrefix(slug, BlogPrefix) then Some(slug + HtmlExt) else None
    else None
  }

  /** A character the browser keeps as it is in the fragment of a URL given to
      `pushState`: printable ASCII other than space, `"`, `<`, `>` and backquote,
      which it would percent-encode. */
  predicate FragmentSafe(c: char)
  {
    '!' <= c <= '~' && c != '"' && c != '<' && c != '>' && c != '`'
  }

  /** A fragment file name of the form X.html where `.html` occurs only as the
      suffix, and X reads back from `location.hash` as it was pushed. */
  ghost predicate WellFormedFile(f: string)
  {
    && |f| > |HtmlExt| && f[|f| - |HtmlExt|..] == HtmlExt
    && !ContainsHtml(f[..|f| - |HtmlExt|])
    && forall k :: 0 <= k < |f| - |HtmlExt| ==> FragmentSafe(f[k])
  }

  lemma {:induction false} RemoveHtmlSuffix(x: string)
    requires !ContainsHtml(x)
    ensures RemoveFirstHtml(x + HtmlExt) == x
  {
    var s := x + HtmlExt;
    if x == [] {
      assert s == HtmlExt;
    } else {
      SuffixNotAtHead(x);
      NoHtmlInTail(x);
      RemoveHtmlSuffix(x[1..]);
      assert s[1..] == x[1..] + HtmlExt;
      RemoveFirstHtmlStep(s);
    }
  }

  /** No occurrence of `.html` starts at the head of X.html when X has none and
      is not empty: one that reaches into the suffix would need a '.' at a
      position of "html". */
  lemma SuffixNotAtHead(x: string)
    requires x != [] && !ContainsHtml(x)
    ensures (x + HtmlExt)[..|HtmlExt|] != HtmlExt
  {
    var s := x + HtmlExt;
    if |x| >= |HtmlExt| {
      assert s[..|HtmlExt|] == x[0..|HtmlExt|];
      assert !HtmlAt(x, 0);
    } else {
      assert s[|x|] == '.';
      assert HtmlExt[|x|] != '.';
    }
  }

  lemma NoHtmlInTail(x: string)
    requires x != [] && !ContainsHtml(x)
    ensures !ContainsHtml(x[1..])
  {
    if ContainsHtml(x[1..]) {
      var i :| HtmlAt(x[1..], i);
      HtmlAtTail(x, i + 1);
    }
  }

  /** Past a head that starts no `.html`, the removal keeps the head. */
  lemma RemoveFirstHtmlStep(s: string)
    requires |s| >= |HtmlExt| && s[..|HtmlExt|] != HtmlExt
    ensures RemoveFirstHtml(s) == [s[0]] + RemoveFirstHtml(s[1..])
  {
  }

  /** A fragment file X.html is addressed as `#/X`. */
  lemma EncodeSlug(x: string)
    requires !ContainsHtml(x)
    ensures EncodeHash(x + HtmlExt) == HashPrefix + x
  {
    RemoveHtmlSuffix(x);
  }

  /** Popstate routing undoes the hash pushed for a post. */
  lemma SlugRoundTrip(f: string)
    requires WellFormedFile(f)
    ensures DecodeHash(EncodeHash(f)) == Some(f)
  {
    var x := f[..|f| - |HtmlExt|];
    assert f == x + HtmlExt;
    RemoveHtmlSuffix(x);
  }

  /** Initial-load routing undoes the hash pushed for a post whose slug starts with `blog-`. */
  lemma InitialSlugRoundTrip(f: string)
    requires WellFormedFile(f) && HasPrefix(f[..|f| - |HtmlExt|], BlogPrefix)
    ensures InitialFile(EncodeHash(f)) == Some(f)
  {
    var x := f[..|f| - |HtmlExt|];
    assert f == x + HtmlExt;
    RemoveHtmlSuffix(x);
    assert EncodeHash(f)[|HashPrefix|..] == x;
  }
}
