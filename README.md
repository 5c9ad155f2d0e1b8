# Anime catalog pages, modelled in Dafny

This project models the logic of a small anime catalog web app. The app keeps
its entries in one database collection, `animes`. It has three parts:

- **The gallery page** (`app/page.tsx`). It filters the fetched entries by a
  case-insensitive name search and a language choice. It then splits off the
  *featured* entries, those ranked 1 to 10, and sorts them by rank. It orders
  the rest by creation time, by episode count or by a Fisher–Yates shuffle. It
  concatenates the two parts, groups the result by language, and lists the
  distinct languages for the language menu.
- **The gallery card** (`components/anime-card.tsx`). It labels the season
  ("Seasons 1-3", "Season 2", or the stored text) and falls back to a
  placeholder image.
- **The admin page and its add form** (`app/admin/page.tsx`,
  `components/anime-form.tsx`). The admin page keeps a name search, a pending
  rank text per row, and an edit modal with a buffer. Each of these produces
  the update it writes. The add form validates its input and the chosen image,
  builds the new document, and resets itself after a successful submit.

Modules:

| module | file | contents |
|---|---|---|
| `Js` | `js.dfy` | The JavaScript behaviour these pages rely on: truthiness, `trim`, ASCII `toLowerCase`, `includes`, `Number(s)`, `Number.parseInt(s)`, `String(n)`, and their round trips |
| `Lists` | `lists.dfy` | `Array.prototype.filter` (`Keep`), `[...new Set(xs)]` (`Distinct`), and a stable sort by an integer key. It proves that any sorted, stable rearrangement equals this sort |
| `Catalog` | `catalog.dfy` | The `Entry` datatype, one stored document |
| `Gallery` | `gallery.dfy` | The gallery page's list pipeline, with `shuffle` as an array method and the grouping `reduce` as a loop |
| `AnimeCard` | `card.dfy` | Season label and image fallback |
| `Admin` | `admin.dfy` | Admin search and rank parsing, the edit payload, and the `AdminPanel` class holding the page state |
| `AnimeForm` | `form.dfy` | File and form checks, the new document, and the `FormState` class holding the form state |

How the model represents the source:

- **Missing values.** A field stored as `null` is `None`. A JavaScript number
  is `Finite(n)` or `NaN`, so a rank of NaN stays representable.
- **Database writes.** The `getDocs`, `updateDoc` and `addDoc` calls are not
  performed. The model returns the document or update they would receive. The
  result of a fetch is an argument.
- **Random picks.** `Math.random` is a sequence of picks, where step `i` picks
  an index in `[0, i]`.
- **Submit outcomes.** The Cloudinary upload and the database write in the add
  form are outcomes passed to `Submit`.

## Model

| member | source | states |
|---|---|---|
| Js.Trim | components/anime-form.tsx:70 | `trim` never lengthens the text, and a non-empty result starts and ends with non-whitespace |
| Js.TrimEmptyIffBlank | components/anime-form.tsx:70 | `trim` gives the empty string exactly when every character is JavaScript whitespace |
| Js.TrimIdempotent | components/anime-form.tsx:115 | Trimming an already trimmed name or season changes nothing |
| Js.ToLower | app/page.tsx:51 | `toLowerCase` keeps the length, turns each upper-case ASCII letter into its lower-case letter, and changes nothing else |
| Js.Includes | app/page.tsx:51 | The empty text is included in every text, and an included part is never longer than the text |
| Js.IncludesIffOccurs | app/page.tsx:51 | `includes` holds exactly when the part occurs at some offset (both directions) |
| Js.NotIncludedWithout | app/page.tsx:51 | A search text holding a character that the name lacks does not match |
| Js.NatToDigits | app/admin/page.tsx:218 | The decimal text of a number is non-empty digits with no leading zero |
| Js.DigitsRoundTrip | app/admin/page.tsx:218 | Reading back the decimal digits of `n` gives `n` |
| Js.NumberOfIntToString | app/admin/page.tsx:57 | `Number(String(n)) == n` for every integer |
| Js.ToNumber | app/admin/page.tsx:57 | `Number` of a blank text is 0, and of a run of decimal digits its value |
| Js.LeadingDigits | components/anime-form.tsx:118 | The digits `parseInt` reads are the longest run of digits at the start |
| Js.ParseInt | components/anime-form.tsx:118 | `parseInt` of a blank text is NaN, unlike `Number`, and of a run of decimal digits its value |
| Js.ParseIntOfIntToString | components/anime-form.tsx:118 | `Number.parseInt(String(n)) == n` for every integer |
| Lists.Keep | app/page.tsx:50-54 | `filter` keeps exactly the elements satisfying the predicate, as an order-preserving subsequence, and returns the list unchanged when all satisfy it |
| Lists.KeepSplits | app/page.tsx:64-67 | Two filters with complementary predicates together hold every element exactly once (multisets) |
| Lists.Distinct | app/page.tsx:88 | `[...new Set(xs)]` holds exactly the values of `xs`, without duplicates |
| Lists.DistinctInFirstAppearanceOrder | app/page.tsx:88 | The distinct values come in the order of their first appearance |
| Lists.SortBy | app/page.tsx:66 | The sort is ordered by key and is a permutation of its input |
| Lists.SortByStable | app/page.tsx:66 | The sort keeps the input order among elements of equal key |
| Lists.StableSortIsSortBy | app/page.tsx:66-71 | Any ordered, stable rearrangement equals this sort, whatever stable algorithm the engine runs |
| Gallery.Filtered | app/page.tsx:50-54 | An entry is shown iff its lower-cased name contains the lower-cased search and the language choice is "all" or equals its language; the result is a subsequence of the input |
| Gallery.InitialFilterShowsAll | app/page.tsx:50-54 | An empty search with "all" languages returns the input unchanged, in order |
| Gallery.SearchIgnoresCase | app/page.tsx:51 | A search text matches exactly the names its lower-cased form matches |
| Gallery.SearchScenario | app/page.tsx:51 | "naruto" and "NaRuTo" match "Naruto Shippuden"; "naruto" does not match "One Piece" |
| Gallery.IsFeatured | app/page.tsx:65 | A featured entry has a finite rank from 1 to 10, which is its sort key; an absent or NaN rank is never featured |
| Gallery.InRest | app/page.tsx:67 | The rest filter holds exactly when the featured filter fails: an absent, zero, NaN, negative or above-ten rank |
| Gallery.PartitionSplits | app/page.tsx:64-67 | Featured and rest together hold every filtered entry exactly once |
| Gallery.RankKey | app/page.tsx:66 | The rank comparator's key: the stored rank when it is a number, 99 when it is absent |
| Gallery.NewestKey | app/page.tsx:69 | The newest-first comparator's key: the negated creation seconds, so later entries come first; an entry without a timestamp gets a key above every dated one |
| Gallery.EpisodesKey | app/page.tsx:71 | The most-episodes-first comparator's key: the negated count, with a stored `null` as 0 |
| Gallery.Featured | app/page.tsx:64-66 | The featured part is ordered by rank and holds the featured entries (multiset) |
| Gallery.FeaturedAreFeatured | app/page.tsx:65 | Every entry of the featured part has a rank from 1 to 10 |
| Gallery.FeaturedSpec | app/page.tsx:64-66 | The featured part holds exactly the filtered entries ranked 1–10, by non-decreasing rank, with ties in filtered order |
| Gallery.FisherYatesPermutes | app/page.tsx:57-63 | For every valid sequence of picks the shuffle is a permutation |
| Gallery.Shuffle | app/page.tsx:57-63 | The in-place loop leaves the array holding the specified shuffle of its old contents, a permutation |
| Gallery.OrderRest | app/page.tsx:68-74 | "newest" orders by non-increasing creation seconds, "episodes" by non-increasing episode count (null as 0), anything else shuffles; always a permutation |
| Gallery.NewestIsTheStableSort | app/page.tsx:68-69 | Any stable newest-first sort of the rest is the one modelled |
| Gallery.EpisodesIsTheStableSort | app/page.tsx:70-71 | Any stable most-episodes-first sort of the rest is the one modelled |
| Gallery.RestNotFeatured | app/page.tsx:67-74 | No entry of the ordered rest is featured |
| Gallery.ArrangeShape | app/page.tsx:64-75 | The featured part followed by the ordered rest is a permutation of the filtered list whose featured entries are exactly those of the first part |
| Gallery.Arrange | app/page.tsx:75 | `[...featured, ...rest]` is a permutation of the filtered list in which exactly the entries before the end of the featured part are featured |
| Gallery.SortedAnimes | app/page.tsx:50-75 | The displayed list holds exactly the entries matching the search and the language choice, as often as the filter keeps them, featured ones first and only those |
| Gallery.ScenarioFeatured | app/page.tsx:64-66 | Of entries ranked 3, none, 1 and 15, the featured part is the one ranked 1, then the one ranked 3 |
| Gallery.ScenarioRest | app/page.tsx:67-71 | Of the same four, the rest in "episodes" mode is the one ranked 15 (2 episodes), then the unranked one (1 episode) |
| Gallery.EpisodesScenario | app/page.tsx:64-75 | For any four entries ranked 3, none, 1 and 15, where the unranked one has 1 episode and the one ranked 15 has 2, "episodes" mode shows the 3rd, 1st, 4th and 2nd, whatever the random picks |
| Gallery.GroupKey | app/page.tsx:79-81 | An entry is grouped under its language; the key "null" is shared by a `null` language and the language text "null" |
| Gallery.InGroup | app/page.tsx:79-82 | A group holds exactly the entries with its key, in list order |
| Gallery.InGroupEmpty | app/page.tsx:79-80 | A key no entry has names an empty group |
| Gallery.GroupStep | app/page.tsx:79-83 | Opening a missing group and pushing the entry keeps keys and groups equal to those of the longer list |
| Gallery.GroupSizesCoverAll | app/page.tsx:77-86 | The group sizes add up to the length of the list |
| Gallery.GroupByLanguage | app/page.tsx:77-86 | The `reduce` loop yields the distinct keys in first-appearance order, each mapped to its group in list order; the sizes add up to the list length, and there is no group exactly when the list is empty |
| Gallery.Languages | app/page.tsx:88 | The language menu lists every stored language once, and nothing else, in the order of first appearance in the fetched list |
| AnimeCard.SeasonRangeIffSplits | components/anime-card.tsx:27 | The first-hyphen test agrees with `/^\d+-\d+$/` read as "some split into digits, hyphen, digits" |
| AnimeCard.RangeIsNotNumber | components/anime-card.tsx:27-30 | No season matches both patterns |
| AnimeCard.SeasonDisplay | components/anime-card.tsx:24-34 | Empty iff the season is absent or empty; "Seasons " + s iff a range, "Season " + s iff all digits, s itself otherwise |
| AnimeCard.SeasonDisplayEndsWithSeason | components/anime-card.tsx:25-33 | A non-empty label always ends with the stored season text |
| AnimeCard.RangeExample | components/anime-card.tsx:27-28 | "1-3" is shown as "Seasons 1-3" |
| AnimeCard.NumberExample | components/anime-card.tsx:29-30 | "2" is shown as "Season 2" |
| AnimeCard.VerbatimExample | components/anime-card.tsx:31-32 | "Spring 2024" is shown unchanged |
| AnimeCard.ImageSrc | components/anime-card.tsx:54 | An empty image URL becomes the placeholder path; a non-empty one is used as is |
| Admin.VisibleEntries | app/admin/page.tsx:206 | The admin list shows exactly the entries whose lower-cased name contains the lower-cased search, in fetched order |
| Admin.EmptySearchListsAll | app/admin/page.tsx:206 | An empty search lists every entry |
| Admin.SavedRank | app/admin/page.tsx:57 | No pending text, or an empty one, writes `null`; otherwise `Number` of the text |
| Admin.TypedRankSaved | app/admin/page.tsx:57 | A typed integer is saved as that integer, 0 included |
| Admin.RankText | app/admin/page.tsx:218 | The text shown for a stored finite rank reads back as that rank |
| Admin.RankInputValue | app/admin/page.tsx:218 | The input shows the pending text if any, else the stored rank, else "" |
| Admin.SaveRankOfShownValue | app/admin/page.tsx:57-58 | A non-empty pending text is saved as the number shown; an untouched input writes `null` even when it shows a stored rank |
| Admin.Draft.Set | app/admin/page.tsx:83 | Changing one field of the buffer leaves the others as they were |
| Admin.DraftOf | app/admin/page.tsx:74 | The buffer opened for an entry holds its name |
| Admin.OrNullValue | app/admin/page.tsx:91-92 | The `null` fallback of the language and season fields is the value itself when truthy and `null` otherwise |
| Admin.NumberOrNull | app/admin/page.tsx:93-94 | `v ? Number(v) : null` is `null` exactly when `v` is falsy |
| Admin.EditPayload | app/admin/page.tsx:90-96 | The name is written as is; a falsy language or season is written as `null`, any other as is; a falsy count or rank is written as `null`, any other as `Number` of it |
| Admin.UntouchedEditPayload | app/admin/page.tsx:90-96 | Saving an unchanged buffer writes the entry back, except that an empty language or season, 0 episodes, or a rank of 0 or NaN become `null` |
| Admin.TypedNumberPayload | app/admin/page.tsx:93-94 | Episode counts and ranks typed as integers are written as those integers |
| Admin.ClearedTextPayload | app/admin/page.tsx:91-92 | A cleared language or season is written as `null` |
| Admin.AdminPanel.constructor | app/admin/page.tsx:26-34 | Starts with no entries, no pending ranks, no selection and an empty buffer |
| Admin.AdminPanel.FetchCompleted | app/admin/page.tsx:40-48 | A fetch whose `getDocs` resolved replaces the list and closes the modal; pending rank texts stay. A rejected fetch has no handler and changes none of this state, so it is no step of the model |
| Admin.AdminPanel.HandleRankChange | app/admin/page.tsx:50-52 | Sets the pending text of one row and leaves every other row's unchanged |
| Admin.AdminPanel.SaveRank | app/admin/page.tsx:54-61 | Sends the row's `SavedRank` and changes none of the modelled state; the refetch that follows a resolved write is the separate `FetchCompleted` step |
| Admin.AdminPanel.OpenEditModal | app/admin/page.tsx:72-75 | Selects the entry and fills the buffer from it |
| Admin.AdminPanel.CloseEditModal | app/admin/page.tsx:77-80 | Returns to no selection and an empty buffer |
| Admin.AdminPanel.HandleEditChange | app/admin/page.tsx:82-84 | Sets one field of the buffer to the typed text; the other fields are unchanged |
| Admin.AdminPanel.SaveAnimeEdit | app/admin/page.tsx:86-100 | Sends nothing without a selection; otherwise sends the payload of the buffer for the selected id, and closes the modal only if the write resolved; a rejected write leaves the selection and the buffer as they were. The refetch after it is the separate `FetchCompleted` step |
| AnimeForm.FormData.Set | components/anime-form.tsx:39 | Changing one field leaves the others as they were |
| AnimeForm.ImageCheck | components/anime-form.tsx:46-56 | A file is accepted iff its type starts with "image/" and it has at most 10·1024·1024 bytes; the type error is reported first |
| AnimeForm.ImageSizeBoundary | components/anime-form.tsx:53-56 | Exactly 10 MiB is accepted; one byte more is refused |
| AnimeForm.ValidationError | components/anime-form.tsx:69-79 | Validation passes iff the trimmed name is non-empty and an image is chosen; a blank name is reported before a missing image |
| AnimeForm.Configured | components/anime-form.tsx:94 | The upload goes ahead only when both Cloudinary settings are non-empty strings; an unset or empty one stops it |
| AnimeForm.TextOrNull | components/anime-form.tsx:116-117 | An empty text becomes `null`; any other is kept |
| AnimeForm.BuildDocument | components/anime-form.tsx:114-122 | The name is trimmed; a chosen language is stored as chosen; an empty language, a blank season, an empty count and an empty rank become `null`; otherwise the season is trimmed, the count is `parseInt` and the rank is `Number` of the text |
| AnimeForm.ValidDocumentName | components/anime-form.tsx:115 | A form that passes validation yields a non-empty, already trimmed name |
| AnimeForm.DocumentSeasonTrimmed | components/anime-form.tsx:117 | A stored season is non-empty and already trimmed |
| AnimeForm.TypedNumbersStored | components/anime-form.tsx:118-121 | Counts and ranks typed as integers are stored as those integers |
| AnimeForm.FailureMessage | components/anime-form.tsx:141 | An `Error`'s message is shown; anything else shows the fallback text |
| AnimeForm.FormState.constructor | components/anime-form.tsx:24-35 | Starts with five empty fields, no image, no preview and no error |
| AnimeForm.FormState.HandleInputChange | components/anime-form.tsx:38-41 | Sets one field, leaves the others, and clears the error |
| AnimeForm.FormState.HandleImageChange | components/anime-form.tsx:43-67 | No file changes nothing; a refused file only sets the error and keeps the old image; an accepted file is stored and the error cleared |
| AnimeForm.FormState.PreviewLoaded | components/anime-form.tsx:61-64 | The preview shows the file's data URL |
| AnimeForm.FormState.ValidateForm | components/anime-form.tsx:69-79 | Returns whether validation passes; on failure the error is the first failing check |
| AnimeForm.FormState.Submit | components/anime-form.tsx:81-153 | Validation errors, missing configuration, upload failure and write failure each set their message and keep the form; success stores the built document and resets the form to empty |

## Left out

- Database reads and writes (`getDocs`, `updateDoc`, `deleteDoc`, `addDoc`, `serverTimestamp`) are external persistence. The model returns the data handed to them.
- `deleteAnime` on the admin page only confirms and deletes through the database, so nothing of it is modelled. The `window.confirm` dialog is a UI side effect.
- lib/cloudinary.ts is not part of this model. It is a network client, and its outcome is a parameter of `Submit`.
- The admin password gate (app/admin/page.tsx:123, 127) is a comparison against a literal. It is not modelled.
- Loading, saving, deleting and progress flags, toasts, `setTimeout` and the `FileReader` itself are UI side effects. The reader's result is the `PreviewLoaded` step.
- Admin.AdminPanel.SaveAnimeEdit: a rejected `updateDoc` is not caught, so `editLoading` stays set and the Save and Cancel buttons (app/admin/page.tsx:271-272) stay disabled. The model keeps the selection and the buffer, but the flag is not modelled. The modal's × button (app/admin/page.tsx:246) has no `disabled` and still closes the modal afterwards; that is the `CloseEditModal` step.
- Admin.AdminPanel.SaveRank: a rejected `updateDoc` leaves the row's `saving` flag set and skips the refetch. The flag is not modelled.
- Async ordering and re-entrancy are not modelled: handlers that interleave, and state set after the component unmounts.
- `toLowerCase` lowers only ASCII letters. Unicode case mapping is not modelled.
- `Number(s)` is modelled for optionally signed decimal integers only. Fractions, exponents, hexadecimal, `Infinity` and the like give NaN in the model.
- `Number.parseInt(s)` is modelled for decimal digits. A "0x" prefix, which JavaScript reads as hexadecimal, is read as 0. Numbers are unbounded integers: no floating-point rounding.
- Gallery.NewestKey: an entry without `createdAt` (a pending server timestamp) sorts after every dated entry. The source's comparator returns NaN for it, which leaves the engine's order unspecified.
- Gallery.EpisodesKey: a stored `null` count acts as 0, as JavaScript subtraction does. A NaN count is not representable in `Entry`.
- Gallery.GroupKey: a missing language and a `null` language are both `None`, keyed "null". In JavaScript a missing property would be keyed "undefined".
- Gallery.GroupByLanguage: the keys keep first-appearance order. JavaScript objects put integer-like keys such as "1" first, which is not modelled. Keys that name `Object.prototype` members ("constructor", "__proto__") are not modelled either.
- Admin.DraftOf: the buffer holds only the five edited fields. `id`, `imageUrl` and `createdAt` are copied by the spread but never written back.
- Admin.AdminPanel.HandleEditChange requires an open selection, because its inputs exist only inside the modal, which renders only while an entry is selected (app/admin/page.tsx:243).
- The page at app/language/[lang]/page.tsx repeats the gallery's featured/shuffle pipeline for one language and is not part of this model.
