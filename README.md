# Blog page view controller

A Dafny model of the controller behind a single-page blog: `script.js`
holds a fixed catalog of posts. The controller:

- fills a tag-filter select from the posts' tags;
- shows a newest-first, filtered list twelve cards per page, with previous/next page buttons;
- opens one post's fragment (fetched from `blogs/<contentFile>`) in a detail view, with previous/next article buttons;
- keeps the URL hash in step (`#/blog-2` for `blog-2.html`) through `history.pushState`;
- answers the browser's back/forward buttons (`popstate`);
- on the initial load follows a `#/blog-…` hash straight to its post.

Modules, in dependency order:

- `Optional`: the `Option` datatype.
- `Catalog`: the `Blog` record, ASCII lower-casing, the tag filter with its `"all"` sentinel, the `b.id - a.id` ordering, and the `find`/`findIndex` lookups.
- `Tags`: `getUniqueTags`, written as a method with loops because the source builds a `Set` step by step, and the options of the select.
- `Pagination`: page size 12, `Math.ceil`, the page slice, the pagination controls and the page-info text.
- `Slug`: the hash codec. `contentFile.replace('.html', '')` becomes `#/…`; the popstate handler and the initial load turn `#/…` back into a file name.
- `Transitions`: the page's state as one `View` value, with one function per listener or function of the script. It also holds the invariant `Valid`, proved preserved by every event and every event sequence after the initial load, and one lemma per transition stating what it guarantees.
- `Controller`: class `ViewController`, whose fields are the script's module-level variables, the select's value and the page state the DOM shows. Its methods change those fields in place, and each ensures that the new state is the matching `Transitions` function of the old state, so every lemma of `Transitions` applies to the object.
- `Scenario`: the three posts the script ships with, as test data. It records what the filter shows for them and the first steps of a session.

A fetch is an input to the model: `Fetched(body)` or `FetchFailed`. This covers both a failed request and a response that is not `ok`.

## Model

| member | source | states |
|---|---|---|
| Catalog.LowerChar | script.js:71 | lower-cases exactly the ASCII capitals, by the fixed offset, and leaves every other character alone |
| Catalog.Keeps | script.js:69-71 | the filter's callback; its guarantee is stated by Catalog.FilterByTagCounts and Catalog.FilterSortSpec |
| Catalog.FilterByTag | script.js:69-71 | `blogs.filter(...)`; stated by Catalog.FilterByTagCounts |
| Catalog.Lower | script.js:62 | `toLowerCase` maps each character by LowerChar: the same length, no capital left, every non-capital in place |
| Catalog.FilterByTagCounts | script.js:69-71 | the filter keeps each post it accepts as often as the catalog holds it, and no other post; `"all"` accepts every post, any other value accepts a post with a tag that lower-cases to it |
| Catalog.InsertById | script.js:72 | inserting into a newest-first list keeps it ordered by id and adds exactly that post |
| Catalog.SortByIdDesc | script.js:72 | the `b.id - a.id` sort yields a list in non-increasing id order |
| Catalog.SortByIdDescPermutes | script.js:72 | the sort is a permutation of its input |
| Catalog.InsertByIdStrict | script.js:72 | inserting a post with a new id into a strictly ordered list keeps it strictly ordered |
| Catalog.SortByIdDescStrict | script.js:72 | with unique ids the sorted list is strictly newest first |
| Catalog.FilterKeepsUniqueIds | script.js:69-71 | filtering never duplicates an id |
| Catalog.FilterSort | script.js:69-72 | the `filteredBlogs` value; stated by Catalog.FilterSortSpec |
| Catalog.FilterSortSpec | script.js:69-72 | `filteredBlogs` is strictly newest first and holds exactly the catalog posts the filter keeps, each with its catalog multiplicity; with `"all"` it is a permutation of the catalog |
| Catalog.IndexOfId | script.js:132-135 | `findIndex` returns the first position holding the id, or none when no position does |
| Catalog.FindByFile | script.js:223 | `find` by file returns the first post of the list with that file, or none when no post has it |
| Catalog.IndexOfOwnId | script.js:135 | with unique ids, looking up the id at position k finds k |
| Tags.LexIrreflexive | script.js:54 | the default sort's string order is irreflexive |
| Tags.LexTransitive | script.js:54 | the default sort's string order is transitive |
| Tags.LexTotal | script.js:54 | the default sort's string order relates any two different strings |
| Tags.LexLess | script.js:54 | the default sort's string order; a strict total order by Tags.LexIrreflexive, Tags.LexTransitive and Tags.LexTotal |
| Tags.InsertTag | script.js:54 | inserting a new tag into an ascending list keeps it strictly ascending and adds exactly that tag |
| Tags.SortTags | script.js:54 | sorting the Set's distinct tags gives a strictly ascending permutation of them |
| Tags.GetUniqueTags | script.js:49-55 | the result is strictly ascending, hence free of duplicates, and holds a tag exactly when some post carries it |
| Tags.TagSelectsPost | script.js:60-71 | the option value of a tag lists every post that carries the tag, so the option of a tag that occurs lists some post |
| Tags.TagFilterOptions | script.js:57-66 | the "All" option, then one option per tag valued by its lower-cased name; stated by Tags.OptionsSelectSomePost |
| Tags.OptionsSelectSomePost | script.js:57-66 | for a non-empty catalog, every option of the select, "All" included, lists at least one post |
| Pagination.TotalPages | script.js:174 | `Math.ceil(count / 12)`: the least number of 12-post pages that hold count posts, and 0 only for no posts |
| Pagination.PageSlice | script.js:76-78 | the slice of a page holds at most 12 posts, those at positions `(page-1)*12` onwards and in order; it is empty exactly past the last page and full before it |
| Pagination.ConcatPagesPrefix | script.js:76-78 | pages 1 to k in order are the first `12*k` posts, or all of them |
| Pagination.PagesReassemble | script.js:76-78 | the pages 1 to `totalPages` read in order give back the whole list |
| Pagination.Decimal | script.js:179 | the interpolated number is a non-empty string of digits without a leading zero |
| Pagination.DecimalRoundTrip | script.js:179 | the printed page number reads back as the number |
| Pagination.PageInfoText | script.js:179 | the page-info text is empty exactly when there are no pages |
| Pagination.PaginationControls | script.js:173-180 | "previous" is disabled exactly at page 1 or below, "next" exactly at the last page or beyond, and the info is empty exactly for an empty list |
| Pagination.EnabledButtonsReachPosts | script.js:206-217 | on a page with posts, an enabled page button leads to a page with posts; a list of at most 12 posts disables both |
| Slug.HtmlAtTail | script.js:158 | an occurrence of `.html` past the first character is an occurrence in the tail |
| Slug.RemoveFirstHtml | script.js:158 | `replace('.html', '')` leaves a name without `.html` unchanged and otherwise removes exactly five characters; which five is stated by Slug.RemoveFirstHtmlFirst |
| Slug.RemoveFirstHtmlFirst | script.js:158 | `replace('.html', '')` cuts out the first occurrence of `.html`: the result is the string before it followed by the string after it |
| Slug.DecodeHash | script.js:221-223 | the popstate handler reads a file name exactly from a hash of the form `#/` plus a non-empty slug; the name is that slug plus `.html` |
| Slug.InitialFile | script.js:234-240 | the initial load reads a file name only from a slug starting with `blog-`, and then the same name as the popstate handler |
| Slug.EncodeHash | script.js:158-159 | the hash pushed for a post; stated by Slug.EncodeSlug, Slug.SlugRoundTrip and Slug.InitialSlugRoundTrip |
| Slug.FirstHtmlShifts | script.js:158 | the first `.html` of the tail, past a head that starts none, is the first `.html` of the string |
| Slug.RemoveHtmlSuffix | script.js:158 | removing the first `.html` from X.html gives X when X has no `.html` |
| Slug.EncodeSlug | script.js:158-159 | the file X.html is pushed as `#/X` |
| Slug.SlugRoundTrip | script.js:221-223 | the popstate handler decodes the hash pushed for a well-formed file back to that file |
| Slug.InitialSlugRoundTrip | script.js:234-240 | the initial load decodes the hash pushed for a `blog-…` file back to that file |
| Transitions.ArticleNavigation | script.js:168-171 | "previous article" is disabled exactly at index 0, "next article" exactly at the last index or past it |
| Transitions.Initial | script.js:32-35 | the variables' initial values with the select on "all", before any push; what follows it is stated by Transitions.InitialLoadValid, Transitions.InitialLoadDeepLink and Transitions.InitialLoadFallsBackToList |
| Transitions.RenderPage | script.js:74-129 | the rendering half of displayBlogList; stated by Transitions.DisplayBlogListSpec |
| Transitions.DisplayBlogList | script.js:68-129 | displayBlogList; stated by Transitions.DisplayBlogListSpec and Transitions.DisplayBlogListValid |
| Transitions.ShowBlogDetail | script.js:131-166 | showBlogDetail with its fetch settled; stated by Transitions.ShowBlogDetailSpec and Transitions.ShowBlogDetailValid |
| Transitions.BackToList | script.js:182-188 | the back-to-list handler; stated by Transitions.BackToListSpec and Transitions.DetailThenBackRestoresList |
| Transitions.PrevArticle | script.js:190-194 | the previous-article handler; stated by Transitions.ArticleStepSpec |
| Transitions.NextArticle | script.js:196-200 | the next-article handler; stated by Transitions.ArticleStepSpec |
| Transitions.ChangeFilter | script.js:202-204 | the select's change handler; stated by Transitions.ChangeFilterSpec |
| Transitions.PrevPage | script.js:206-210 | the previous-page handler; stated by Transitions.PrevPageSpec |
| Transitions.NextPage | script.js:212-217 | the next-page handler; stated by Transitions.NextPageSpec |
| Transitions.PostOfHash | script.js:221-223 | the catalog post a hash names; stated through Slug.SlugRoundTrip in Transitions.PoppedPostEntryShowsPost |
| Transitions.Popstate | script.js:220-231 | the popstate handler; stated by Transitions.PoppedPostEntryShowsPost and Transitions.PoppedListEntryShowsList |
| Transitions.InitialLoad | script.js:233-255 | the initial load; stated by Transitions.InitialLoadDeepLink and Transitions.InitialLoadFallsBackToList |
| Transitions.Step | script.js:182-231 | the listener each event runs; stated by Transitions.StepValid |
| Transitions.SortedCatalogValid | script.js:243 | re-sorting the whole catalog into `filteredBlogs` keeps the invariant |
| Transitions.DisplayBlogListValid | script.js:68-129 | displayBlogList keeps the invariant |
| Transitions.ShowBlogDetailValid | script.js:131-166 | showBlogDetail keeps the invariant, including that a pushed entry names a catalog post by id and by slug |
| Transitions.PopstateValid | script.js:220-231 | the popstate handler keeps the invariant |
| Transitions.BackToListValid | script.js:182-188 | the back-to-list handler keeps the invariant |
| Transitions.PrevArticleValid | script.js:190-194 | the previous-article handler keeps the invariant |
| Transitions.NextArticleValid | script.js:196-200 | the next-article handler keeps the invariant |
| Transitions.ChangeFilterValid | script.js:202-204 | the filter change keeps the invariant |
| Transitions.PrevPageValid | script.js:206-210 | the previous-page handler keeps the invariant |
| Transitions.NextPageValid | script.js:212-217 | the next-page handler keeps the invariant |
| Transitions.StepValid | script.js:182-231 | every listener keeps the invariant |
| Transitions.RunValid | script.js:182-231 | any sequence of events keeps the invariant |
| Transitions.InitialLoadValid | script.js:233-255 | the initial load establishes the invariant for a catalog with unique ids |
| Transitions.ReachableValid | script.js:182-255 | every state reachable after the initial load satisfies the invariant |
| Transitions.DisplayBlogListSpec | script.js:68-129 | displayBlogList sets the filtered list and the page and shows at most 12 cards of that page. When the slice is empty it hides the controls and returns before switching section or pushing; otherwise it shows the list with the pagination controls (both flags and the page-info text) for that page and pushes one list entry |
| Transitions.ChangeFilterSpec | script.js:202-204 | a filter change goes to page 1 of the chosen value, and shows it in sync with the select when it keeps a post |
| Transitions.PrevPageSpec | script.js:206-210 | "previous page" steps back one page only above page 1 and otherwise changes nothing; from a shown list it reaches a shown list |
| Transitions.NextPageSpec | script.js:212-217 | "next page" steps on one page only below the page count of `filteredBlogs` and otherwise changes nothing; from a shown list it reaches a shown list |
| Transitions.ShowBlogDetailSpec | script.js:131-166 | an unknown id changes nothing. Otherwise the index points at the post. A failed fetch changes only the index and the error content. A successful fetch shows the article, switches to the detail section, sets the article buttons and pushes one entry with the id and the slug. Filter, page and list stay unchanged |
| Transitions.ArticleStepSpec | script.js:190-200 | the article buttons step to the neighbouring post only when it exists and keep an in-range index in range; at either end they change nothing |
| Transitions.BackToListSpec | script.js:182-188 | back to list redisplays the select's filter at the current page, clears the hash, and pushes twice when the page has posts |
| Transitions.DetailThenBackRestoresList | script.js:182-188 | opening a post from a shown list and going back restores the same filter, page, cards and controls |
| Transitions.PoppedPostEntryShowsPost | script.js:220-231 | popping an entry the page pushed for a post shows that post again, over the whole catalog newest first, and pushes the same entry |
| Transitions.PoppedListEntryShowsList | script.js:220-231 | popping a list entry redisplays the select's filter at the current page |
| Transitions.ReachableHistoryShowsPosts | script.js:220-231 | in every reachable state, popping any entry pushed for a post shows that post |
| Transitions.InitialLoadDeepLink | script.js:233-255 | opening the page at the hash of a `blog-…` post shows that post at page 1 of the whole catalog, with one pushed entry |
| Transitions.InitialLoadFallsBackToList | script.js:233-255 | opening the page without a `#/blog-…` hash, or with one naming no post, shows page 1 of all posts with the select on "all" |
| Controller.ViewController.constructor | script.js:32-66 | the initial variables, and select options built from the strictly ascending list of exactly the catalog's tags |
| Controller.ViewController.UpdatePaginationControls | script.js:173-180 | sets only the pager, to the controls of the current page and list |
| Controller.ViewController.UpdateArticleNavigationButtons | script.js:168-171 | sets only the article buttons, from the current index and list length |
| Controller.ViewController.DisplayBlogList | script.js:68-129 | the new state is displayBlogList's transition of the old |
| Controller.ViewController.RenderPage | script.js:74-129 | the new state is the rendering half of displayBlogList applied to the old |
| Controller.ViewController.ShowBlogDetail | script.js:131-166 | the new state is showBlogDetail's transition of the old |
| Controller.ViewController.BackToList | script.js:182-188 | the new state is the back-to-list transition of the old |
| Controller.ViewController.PrevArticle | script.js:190-194 | the new state is the previous-article transition of the old |
| Controller.ViewController.NextArticle | script.js:196-200 | the new state is the next-article transition of the old |
| Controller.ViewController.ChangeFilter | script.js:202-204 | the new state is the filter-change transition of the old |
| Controller.ViewController.PrevPage | script.js:206-210 | the new state is the previous-page transition of the old |
| Controller.ViewController.NextPage | script.js:212-217 | the new state is the next-page transition of the old |
| Controller.ViewController.Popstate | script.js:220-231 | the new state is the popstate transition of the old |
| Controller.ViewController.InitialLoad | script.js:233-255 | the new state is the initial-load transition of the old |
| Scenario.SampleWellFormed | script.js:2-30 | the shipped posts have unique ids, unique files and well-formed file names |
| Scenario.SlugFileWellFormed | script.js:158-160 | a slug of fragment-safe characters without a dot gives a well-formed file name |
| Scenario.SampleKeeps | script.js:69-71 | the option value "ai" keeps posts 1 and 2 and not 3; the tag as written, "AI", keeps none |
| Scenario.SampleFilters | script.js:69-72 | "all" lists posts 3, 2, 1; "ai" lists 2, 1; "AI" lists nothing |
| Scenario.SampleOpens | script.js:233-255 | opening the page without a hash shows posts 3, 2, 1 on page 1 with one list entry pushed |
| Scenario.SecondPostHash | script.js:158-159 | post 2 is addressed as `#/blog-2` |
| Scenario.SampleOpensSecondPost | script.js:131-166 | opening post 2 from that list selects index 1, shows it, and pushes `#/blog-2` with id 2 |
| Scenario.SampleBackToList | script.js:182-188 | going back shows posts 3, 2, 1 again and pushes the list entry twice |

## Left out

- The DOM itself: card and article markup, inline styles, the empty-list message text, section classes and `scrollTo`. The model keeps what they show: which section is active, which posts are on cards, what the detail view holds, and the buttons' disabled flags.
- `fetch`, `await` and `response.text()`: each call's outcome is an input (`Fetched(body)` or `FetchFailed`). The error path's `console.error` is left out.
- Overlapping fetches: two detail requests can settle in either order. Each call is modelled as settling before the next event.
- The browser history: `history.pushState` is modelled as appending an entry (the state's blogId and the URL's hash) to a sequence. Moving through the history is the popstate event, which carries the hash of the entry arrived at. URL construction and `window.location.pathname` are left out.
- The URL's percent-encoding: the hash the popstate handler reads is taken to be the hash pushed, character for character. This holds only for slugs of printable ASCII other than space, `"`, `<`, `>` and backquote. `Transitions.WellFormedCatalog` demands exactly that of every file name, so the routing lemmas say nothing about posts whose slugs the browser would encode.
- Catalog.Lower: lower-cases ASCII letters only. `toLowerCase` also folds non-ASCII letters; the shipped tags are ASCII.
- Tags.LexLess: compares characters as Unicode scalar values. `sort()` compares UTF-16 code units, which differs only for characters outside the Basic Multilingual Plane.
- Catalog.SortByIdDesc: modelled as a stable insertion sort. The engine's algorithm is left out; the contracts state what any correct sort gives: ordered by id, a permutation, and strictly ordered when ids are unique.
- The page's initial DOM state comes from the HTML, which is not part of this model. `Transitions.Initial` takes the mode to be `Unrendered` until the first switch. It takes the pagination controls as displayed, both page buttons enabled and the page-info text empty, and both article buttons enabled. Each of these is overwritten before it is read: the first displayBlogList or successful showBlogDetail sets them.
- The three shipped posts are test data (module `Scenario`), not part of the model's logic; every lemma outside `Scenario` holds for any catalog that meets its requires (most ask for unique ids; the routing lemmas ask for well-formed, unique file names).
- Controller.ViewController: its methods state the new state as a transition of the old, not the invariant itself. The invariant is proved on those transitions (`Transitions.StepValid`, `Transitions.ReachableValid`), so it holds of every state the object can reach.
- A run of the controller object over the shipped posts is not included; the same session is stated on the transitions (`Scenario.SampleOpens`, `Scenario.SampleOpensSecondPost`, `Scenario.SampleBackToList`).

## Where the code and its description differ

The model follows the code in each case:

- Back to list pushes a cleared-hash entry twice when the page has posts: once inside displayBlogList (script.js:126-128) and once more in the handler (script.js:185-187).
- A failed fetch writes the error message but does not switch to the detail section (script.js:162-165).
- The pagination controls are hidden when the current page's slice is empty (script.js:81-86), not only when the filter keeps nothing. An out-of-range page hides them even for a non-empty list.
- The previous-article handler reads `filteredBlogs[currentBlogIndex - 1].id` without checking the length. After a re-filter that shortens the list, that entry is undefined and the handler throws; the model leaves the state unchanged then.
