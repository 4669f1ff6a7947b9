# ED-tech courses: category selection, description truncation and the like toggle

This project models the course catalogue's client-side logic in Dafny:

- **Category selection.** The course grid (`Cards`) gets the fetched catalogue and a category. For the category `"All"` it shows every group, concatenated in catalogue order. For any other category it shows the group stored under that name, or nothing when the name is absent.
- **One card per shown course.** The grid renders one card per shown course, in order. Every card reads the same liked-id list, which starts empty when the grid mounts.
- **Description truncation.** A card shows a description longer than 100 characters as its first 100 characters followed by `"..."`. It shows shorter descriptions unchanged.
- **Like toggle.** The like button shows the filled heart (`FcLike`) exactly when the course id is in the liked list. Clicking an id that is liked filters out every occurrence of it and shows the toast `warning("Like removed")`. Clicking an id that is not liked appends it and shows `success("Liked Successfully")`.

The catalogue is modelled as a sequence of `(category, courses)` pairs, so that key order is explicit. A string is a `seq<char>`.

The files are:

- `card.dfy`, module `Card`: the course record, truncation, the icon, the rendering of one card, and the pure part of the toggle.
- `likes.dfy`, module `Likes`: the class `LikedCourses`. It holds the shared liked list (a `useState` cell) and the log of toasts, and its method `ToggleLike` changes both.
- `cards.dfy`, module `Cards`: `GetCourses` and the rendering of the grid.
- `scenarios.dfy`, module `Scenarios`: the concrete situations the repository's tests describe.

`src/components/Cards.js:2` imports `Card` from `./Card`. That file is not part of this model. The model follows the two copies of `Card` inlined in `tests/Card.test.js` and `tests/Cards.test.js` (lines 15-88 of each). The copies have the same toggle and truncation logic. They differ in the icon: `Card.test.js` renders an element whose type is `FcLike`, while `Cards.test.js` calls `FcLike()` inside a one-element children array. Both copies are modelled by the one `Card` module, and the rows below cite both files.

`Collection` is a plain list of pairs, not a subset type restricted to distinct keys. On a list with a repeated key, `Flatten` shows both groups and `Lookup` returns the first. A JavaScript object never has a repeated key, so the lemmas that depend on that (`Cards.PresentKey`) state `DistinctKeys` as a precondition. The other lemmas hold for every pair list.

`getCourses` only reads the catalogue. In the model the catalogue is an immutable value, so no call can modify it.

A failed fetch does not render an empty catalogue. In that case `courses` stays `null`, and `Object.values(null)` (or `null[category]`) throws in `getCourses` (`src/components/Cards.js:9,11`). A `Collection` value is never null, so the model covers only the path where the fetch succeeded.

## Model

| member | source | states |
|---|---|---|
| Card.Truncate | ED-tech-courses-7f8d9/tests/Card.test.js:77-79 | the rendered description is never longer than 103 characters; it starts with the first min(length, 100) characters of the input; it is the input itself when that has at most 100 characters; otherwise it is 103 characters long and ends in "..." |
| Card.TruncateIdempotent | ED-tech-courses-7f8d9/tests/Cards.test.js:77-79 | truncating an already rendered description leaves it unchanged |
| Card.TruncateFixedPoint | ED-tech-courses-7f8d9/tests/Card.test.js:77-79 | a description is shown verbatim if and only if it has at most 100 characters, or it has exactly 103 and already ends in "..." |
| Card.IconFor | ED-tech-courses-7f8d9/tests/Card.test.js:51-53 | the button's icon is FcLike if and only if the id is in the liked list, and FcLikePlaceholder if and only if it is not (the same choice as the FcLike()/FcLikePlaceholder() call at tests/Cards.test.js:52) |
| Card.RenderCard | ED-tech-courses-7f8d9/tests/Card.test.js:36-79 | a card shows the image URL, the title as alt text and heading, and the truncated description; its icon is FcLike if and only if the course id is in the liked list, and FcLikePlaceholder otherwise (the same holds for the FcLike() call at tests/Cards.test.js:52) |
| Card.Without | ED-tech-courses-7f8d9/tests/Card.test.js:18 | filtering out an id keeps exactly the elements that differ from it; the result is no longer than the input, and strictly shorter when the id occurred |
| Card.Toggle | ED-tech-courses-7f8d9/tests/Card.test.js:17-22 | after a click the id is liked if and only if it was not liked before; every other id is liked afterwards exactly when it was liked before |
| Card.Notice | ED-tech-courses-7f8d9/tests/Card.test.js:17-23 | a click emits a warning if and only if the id was liked, which is exactly when the id is no longer liked after the click; otherwise it emits a success toast; the text is "Like removed" for the warning and "Liked Successfully" for the success toast (the same calls at tests/Cards.test.js:19,22) |
| Card.WithoutAbsent | ED-tech-courses-7f8d9/tests/Cards.test.js:18 | filtering out an id that does not occur returns the list unchanged |
| Card.WithoutAppend | ED-tech-courses-7f8d9/tests/Card.test.js:18 | filtering a concatenation gives the filtered parts concatenated, so the remaining ids keep their order |
| Card.WithoutKeepsNoDups | ED-tech-courses-7f8d9/tests/Cards.test.js:18 | filtering a duplicate-free list gives a duplicate-free list |
| Card.RemoveAtPosition | ED-tech-courses-7f8d9/tests/Card.test.js:17-19 | in a duplicate-free list, unliking the id at position k gives the list with exactly that position removed and every other id in place |
| Card.UnlikeShrinksByOne | ED-tech-courses-7f8d9/tests/Card.test.js:17-18 | in a duplicate-free liked list, unliking a liked id shortens the list by exactly one |
| Card.ToggleRoundTrip | ED-tech-courses-7f8d9/tests/Card.test.js:17-22 | from a list without the id, a like followed by an unlike gives back the original list |
| Card.ToggleTwiceMembership | ED-tech-courses-7f8d9/tests/Cards.test.js:17-22 | whatever the starting list, two clicks on the same id leave every id liked exactly as it was before |
| Card.ToggleKeepsNoDups | ED-tech-courses-7f8d9/tests/Cards.test.js:16-24 | if the liked list has no duplicates before a click, it has none after it |
| Card.ToggleFlipsOnlyItsIcon | ED-tech-courses-7f8d9/tests/Card.test.js:51-53 | a click changes the icon of the clicked id and of no other id |
| Likes.LikedCourses.constructor | ED-tech-courses-7f8d9/src/components/Cards.js:5 | the liked list starts empty when the grid mounts, and no toast has been shown yet |
| Likes.LikedCourses.ToggleLike | ED-tech-courses-7f8d9/tests/Card.test.js:16-24 | one click on a liked id makes the list that id filtered out and appends exactly one warning("Like removed"); one click on an id that is not liked appends the id and exactly one success("Liked Successfully"); each click updates the list once and emits one toast; a duplicate-free list stays duplicate-free, a like makes it one longer, and an unlike on a duplicate-free list makes it one shorter (same logic at tests/Cards.test.js:16-24) |
| Cards.Lookup | ED-tech-courses-7f8d9/src/components/Cards.js:11 | the lookup finds nothing if and only if no pair has the key; when it finds a group, some pair with that key holds it |
| Cards.Flatten | ED-tech-courses-7f8d9/src/components/Cards.js:9 | `Object.values(courses).flat()`: the result has as many courses as the groups hold together, and holds a course if and only if some group holds it |
| Cards.GetCourses | ED-tech-courses-7f8d9/src/components/Cards.js:7-13 | under "All" as many courses as all groups hold together; under a present name, a group stored under that name; under an absent name, no courses; every shown course belongs to some group (collection order and exact groups: Cards.AllInCollectionOrder, Cards.PresentKey, Cards.AbsentKey, Cards.GroupIsBlockOfAll) |
| Cards.RenderCards | ED-tech-courses-7f8d9/src/components/Cards.js:17-24 | there is one card per shown course, in the order the courses are shown, and every card is rendered from the same liked list |
| Cards.FlattenAppend | ED-tech-courses-7f8d9/src/components/Cards.js:9 | flattening a concatenation of collections gives the flattened parts concatenated |
| Cards.AllInCollectionOrder | ED-tech-courses-7f8d9/src/components/Cards.js:8-9 | under "All" a single group shows as itself, and two collections put together show the first one's courses followed by the second one's, so groups appear in collection order and courses in fetch order |
| Cards.PresentKey | ED-tech-courses-7f8d9/src/components/Cards.js:11 | when keys are distinct, a category that is present (and is not "All") shows exactly its own group, in fetch order |
| Cards.AbsentKey | ED-tech-courses-7f8d9/src/components/Cards.js:11 | a category other than "All" that is not a key shows no courses |
| Cards.SpecificWithinAll | ED-tech-courses-7f8d9/src/components/Cards.js:8-11 | every course shown for any category is also shown under "All" |
| Cards.GroupIsBlockOfAll | ED-tech-courses-7f8d9/src/components/Cards.js:8-11 | under "All" group i appears as one contiguous block, starting right after the courses of the groups before it |
| Cards.ToggleRerendersOnlyItsCards | ED-tech-courses-7f8d9/src/components/Cards.js:17-24 | after a click on an id, the grid has the same number of cards; every card of that course shows the other icon, and every other card is exactly as before |
| Scenarios.RendersCourseInformation | ED-tech-courses-7f8d9/tests/Card.test.js:105-135 | the mock course renders "test-image-url", "Test Course" and its short description unchanged; it shows the empty heart with an empty liked list and FcLike with the list [1] |
| Scenarios.TruncatesLongDescription | ED-tech-courses-7f8d9/tests/Cards.test.js:109-115 | a run of 150 'A's renders as 100 'A's followed by "..." (the same case as tests/Card.test.js:114-123) |
| Scenarios.LikeThenUnlike | ED-tech-courses-7f8d9/tests/Cards.test.js:117-131 | from an empty list, clicking course 1 gives [1] and emits the success toast; clicking again gives [] and emits the warning; the log holds exactly those two toasts, in that order (the same cases as tests/Card.test.js:137-153) |
| Scenarios.FiltersMockCollection | ED-tech-courses-7f8d9/tests/Filter.test.js:31-34 | for the Development/Business catalogue of the test, "All" shows 2 courses (React, then Business), "Development" shows only the React course, and a missing category shows none (what `src/components/Cards.js` would show for that catalogue; the expectations at tests/Filter.test.js:111 and 118 run against a mock `Cards` that renders `courses.length`, which is undefined for this object catalogue, so those numbers come from neither the mock nor `getCourses`) |
| Scenarios.ClickInGrid | ED-tech-courses-7f8d9/src/components/Cards.js:5-24 | on a freshly mounted grid over the test catalogue (its records given an empty description and image URL) under "All", both hearts start empty; clicking the second card fills that card's heart and no other |

## Left out

- The fetch in `App`, with its loading flag and its error toast "Network Error: API is not responding". This is network I/O and a promise. It runs once on mount, and `loading` ends false on both the success and the failure path.
- A null catalogue after a failed fetch. The source throws in `getCourses` in that case, and the model has no value for it (see above).
- A catalogue delivered as a flat array of courses, each carrying a `category` field (the shape of the mock at `tests/App.test.js:25-29`). `Cards.Collection` holds only the category-keyed shape. On a flat array, `src/components/Cards.js` shows every course under "All", because `Object.values(arr).flat()` returns the array's courses. Under any category name it shows nothing, because `arr[category]` is `undefined` and the `|| []` fallback applies.
- Course records without `image` or `description`. A card reads `course.image.url` and `course.description.length` (`tests/Card.test.js:39,77`), so such a record throws a TypeError there. `Card.Course` makes both fields mandatory, so the model has no such record.
- The `Filter`, `Navbar` and `Spinner` components. `Filter` only passes the clicked option's title to `setCategory`. `Navbar` and `Spinner` are static markup.
- Rendering details: element trees, class names, the `key` attribute, icon `fontSize`, the mock test harness code, and how toasts are displayed. A toast is modelled only as an entry `(kind, message)` in the log.
- The gap between the rendered liked snapshot, which the click handler tests for membership, and the `prev` value its functional updater receives. The model handles one click at a time, so the two are the same.
- JavaScript object-key ordering. Integer-like keys are enumerated before other keys, and the model takes the catalogue's pair order as given.
- Keys inherited from `Object.prototype`. For a category named like `toString`, `courses[category]` returns a function rather than `[]`. Categories come from a fixed option list, so the model treats every name that is not a stored key as absent.
- Card.Truncate: counts characters of a `seq<char>`, not UTF-16 code units as `substr` does. A character outside the Basic Multilingual Plane would count twice in the source.
- Course ids are modelled as `int`, compared by equality. JavaScript's `includes` and `!==` agree with that for the integer ids the catalogue uses.
