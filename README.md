# Blog core: slugs, post listing and Notion data access

A Dafny model of the logic at the centre of a Next.js blog that reads its posts from a
Notion database. There are three parts.

- **Slugs and titles** (`src/lib/slug.ts`).
  - `createSlugFromTitle` is modelled as the seven-step string pipeline it is: trim, lower-case, NFC, delete everything but letters, numbers, whitespace and `-`, turn whitespace runs into `-`, collapse `-` runs, strip one `-` at each end.
  - `getPostTitleText` reads the `title` property, falls back to `Name` only when `title` is absent, and defaults to `"Untitled"`.
  - `getPostSlugFromTitle` is the slug of that title, by the pipeline as written.
- **Post listing** (`src/components/PostsSection.tsx`).
  - The publication gate `isDoneStatus` and the category mapping `getPostCategory`.
  - The order-preserving filter and the pagination arithmetic: nine posts per page, `totalPages`, `safeCurrentPage`, the page slice.
  - The per-row title, date, slug and badge fallbacks.
  - The component state: the selected tab and the current page, as a class whose handler methods keep the page number at least 1.
- **Notion data access** (`src/lib/notion.ts`).
  - `normalizeDatabaseId`: rejects a missing or empty id, reformats the leftmost 32-hex-digit run in the 8-4-4-4-12 layout of section 3 of RFC 4122, and otherwise trims.
  - `isFullPageObject`.
  - `getPublishedPosts` and `getPostBySlug`. The Notion client is a function parameter from a query to its results or to the value it throws.
  - The mapping of `object_not_found` to the blog's own error.

Modules:
- `Wrappers`: Option and Result.
- `Seqs`: JavaScript's `filter`, `findIndex`/`find` and `slice`.
- `Hangul`: canonical composition of Hangul jamo.
- `JsText`: `\s`, `\p{L}`, `\p{N}`, `toLowerCase`, `normalize("NFC")` and `trim`.
- `NotionTypes`: pages, property values and query entries.
- `Slug`, `SlugExamples`, `PostsSection`, `Notion`: the three core files and the worked slug examples.

Unicode is modelled concretely over a repertoire: U+0000–U+00FF (ASCII and Latin-1), Hangul Jamo U+1100–U+11FF, Hangul Compatibility Jamo U+3131–U+318E and Hangul Syllables U+AC00–U+D7A3.
- The whitespace class is ECMAScript's exact `WhiteSpace` and `LineTerminator` set.
- Letters and numbers are exact on the repertoire. Any other character is neither.
- Lower-casing is exact on Latin-1 and the identity elsewhere.
- NFC is canonical composition of Hangul jamo (Unicode Standard Annex #15). No other character of the repertoire has a composition.

The facts the pipeline needs are proved from these definitions, not assumed:
- lower-casing is idempotent;
- lower-casing keeps each character's class;
- NFC output has no composable pair and is stable.

## Model

| member | source | states |
|---|---|---|
| Seqs.Filter | src/components/PostsSection.tsx:50 | every kept element comes from the input and passes the test, and every passing input element is kept |
| Seqs.FilterIsOrderedSelection | src/components/PostsSection.tsx:50-57 | the k-th kept element is the input element at the k-th ascending index that passes: `filter` keeps the original order |
| Seqs.FilterAppend | src/lib/notion.ts:73 | filtering distributes over concatenation |
| Seqs.FilterTwice | src/components/PostsSection.tsx:50-57 | filtering by one test and then another equals one filter by their conjunction |
| Seqs.FindIndex | src/lib/notion.ts:118 | the reported index is the first element passing the test, and no index means no element passes |
| Seqs.FindIsFirstOfFilter | src/lib/notion.ts:118-121 | `find` fails exactly when `filter` is empty, and otherwise returns the head of `filter` |
| Seqs.JsSlice | src/components/PostsSection.tsx:72 | `slice` with in-range bounds is the sub-sequence, is clamped at the end, and is empty past the end |
| JsText.ToLowerCase | src/lib/slug.ts:6 | the length is kept and each character is mapped by the case mapping |
| JsText.LowerCharFacts | src/lib/slug.ts:6 | lower-casing is idempotent and keeps whether a character is a letter, a number, whitespace or `-` |
| JsText.NormalizeNfc | src/lib/slug.ts:7 | the result has no composable pair, and a string with none is unchanged |
| JsText.NfcCanonicallyEquivalent | src/lib/slug.ts:7 | NFC output is canonically equivalent to its input: both fully decompose to the same jamo sequence |
| JsText.NfcWithoutHangul | src/lib/slug.ts:7 | a string without Hangul is already in NFC |
| JsText.TrimStart | src/lib/slug.ts:5 | the result is a suffix, everything removed is whitespace, and the result does not start with whitespace |
| JsText.TrimEnd | src/lib/slug.ts:5 | the result is a prefix, everything removed is whitespace, and the result does not end with whitespace |
| JsText.Trim | src/lib/slug.ts:5 | `trim` never lengthens a string and leaves no whitespace at either end |
| JsText.TrimSpec | src/lib/slug.ts:5 | `trim` returns a slice of the input with only whitespace outside it and no whitespace at either end |
| JsText.TrimUnchanged | src/lib/slug.ts:5 | a string with no whitespace at its ends is its own trim |
| JsText.TrimPadded | src/lib/slug.ts:5 | trimming whitespace-padded text gives the text back |
| JsText.TrimIdempotent | src/lib/slug.ts:5 | `trim` is idempotent |
| Hangul.ComposePair | src/lib/slug.ts:7 | a leading consonant and a vowel compose into an LV syllable, and an LV syllable and a trailing consonant into a syllable |
| Hangul.DecomposeComposePair | src/lib/slug.ts:7 | decomposing a composed syllable gives the original pair back |
| Hangul.Compose | src/lib/slug.ts:7 | composition never lengthens a string, introduces only syllables, and leaves no composable pair |
| Hangul.ComposeStable | src/lib/slug.ts:7 | a string with no composable pair is unchanged by composition |
| Hangul.ComposeIdempotent | src/lib/slug.ts:7 | composition is idempotent |
| Hangul.DecomposeChar | src/lib/slug.ts:7 | a character decomposes into one to three characters, and exactly the non-syllables decompose to themselves |
| Hangul.ComposeCanonicallyEquivalent | src/lib/slug.ts:7 | composition keeps the full decomposition: its output is canonically equivalent to its input |
| Slug.DropRun | src/lib/slug.ts:9-10 | what a `+` run consumes is a prefix made only of run characters, and what is left does not start inside the run, so the run taken is maximal |
| Slug.ReplaceRuns | src/lib/slug.ts:9-10 | every output character is `-` or an input character outside the run class, and the first character becomes `-` exactly when it starts a run |
| Slug.ReplaceRunsPlainPrefix | src/lib/slug.ts:9-10 | a prefix without run characters passes through unchanged |
| Slug.ReplaceRunsNoDoubleHyphen | src/lib/slug.ts:10 | after `/-+/` becomes `-`, no two hyphens are adjacent |
| Slug.ReplaceRunsUnchanged | src/lib/slug.ts:9-10 | a string whose run characters are lone hyphens is unchanged |
| Slug.StripHyphenEnds | src/lib/slug.ts:11 | the result is the slice of the input without one leading `-` and one trailing `-`, where there are such, and a string with no `-` at either end is unchanged |
| Slug.StripHyphenEndsPadded | src/lib/slug.ts:11 | a lone `-` at either end of a text that neither starts nor ends with `-` is removed, and the text is kept as it is |
| Slug.StripKeepsWords | src/lib/slug.ts:11 | stripping the end hyphens removes no character of a class that excludes `-`, so no letter or number |
| Slug.StripHyphenEndsIsSlug | src/lib/slug.ts:10-11 | stripping one `-` at each end of a collapsed string leaves no `-` at either end |
| Slug.DropRunKeepsWords | src/lib/slug.ts:9-10 | skipping a run of characters outside a class skips nothing of that class |
| Slug.ReplaceRunsKeepsWords | src/lib/slug.ts:9-10 | replacing runs of characters outside a class by `-` (also outside it) keeps that class's characters, in order |
| Slug.ReplacementsKeepWords | src/lib/slug.ts:8-11 | the four `replace` steps keep every letter and number of their input, in order |
| Slug.DropRunPast | src/lib/slug.ts:9-10 | a run followed by the end of the string or by a character outside it is consumed whole, and exactly the rest is left |
| Slug.RunThen | src/lib/slug.ts:9-10 | a maximal run at the start becomes one `-`, whether it ends the string or something else follows |
| Slug.JoinAtRun | src/lib/slug.ts:9-10 | a maximal run between a run-free prefix and the rest becomes one `-` between them |
| Slug.ReplaceRunsTwice | src/lib/slug.ts:9-10 | replacing whitespace runs by `-` and then hyphen runs by `-` equals one replacement of the runs of whitespace-or-hyphen |
| Slug.ReplaceRunsAligned | src/lib/slug.ts:9-10 | on a string that is empty or starts with a word, replacing the separator runs gives the words joined by `-`, plus one `-` exactly when a separator ends the string |
| Slug.RunsToWords | src/lib/slug.ts:9-11 | replacing the separator runs and stripping one `-` from each end gives the words joined by single hyphens |
| Slug.ReplacementsJoinWords | src/lib/slug.ts:8-11 | the last three `replace` steps on the kept characters give their words joined by single hyphens |
| Slug.Replacements | src/lib/slug.ts:8-11 | the four `replace` steps give exactly the words (maximal runs of letters and numbers) of the kept characters, joined by single hyphens; so the result has the slug shape (only letters, numbers and `-`, no two adjacent hyphens, no `-` at either end), its letters and numbers are those of the input in order, and a slug is left unchanged |
| Slug.CreateSlugFromTitleAsWritten | src/lib/slug.ts:3-12 | the slug is the words of the trimmed, lower-cased, NFC-composed title, after punctuation is deleted, joined by single hyphens; it has the slug shape and is lower case |
| Slug.TrimKeepsWords | src/lib/slug.ts:5 | `trim` removes no letter or number |
| Slug.TrimKeepsClass | src/lib/slug.ts:5 | `trim` removes no character of a class that contains no whitespace |
| Slug.ToLowerKeepsWords | src/lib/slug.ts:6 | lower-casing and then keeping the characters of a class that lower-casing preserves equals keeping them and then lower-casing |
| Slug.SlugKeepsTitleWords | src/lib/slug.ts:3-12 | for a title without Hangul, the slug's letters and numbers are the title's letters and numbers, lower-cased and in order |
| Slug.CorrectedSlugFromTitle | src/lib/slug.ts:3-12 | the pipeline with NFC applied again at the end also returns a lower-case slug |
| Slug.ComposeKeepsSlug | src/lib/slug.ts:7 | NFC keeps the slug shape |
| Slug.AsWrittenOnSlug | src/lib/slug.ts:3-12 | on a lower-case slug the pipeline only applies NFC |
| Slug.AsWrittenTwice | src/lib/slug.ts:3-12 | running the pipeline twice equals the corrected pipeline run once |
| Slug.AsWrittenIdempotentIff | src/lib/slug.ts:3-12 | the pipeline is idempotent on a title exactly when its slug has no composable jamo pair |
| Slug.SlugIdempotent | src/lib/slug.ts:3-12 | the corrected pipeline is idempotent: the slug of a slug is itself |
| Slug.AlphanumericTitle | src/lib/slug.ts:3-12 | a title of ASCII letters and digits slugs to its lower-case form, by both pipelines |
| Slug.NoWordCharacters | src/lib/slug.ts:3-12 | a title of only whitespace and punctuation (the empty title too) slugs to `""`, by both pipelines |
| Slug.NonWordReplacements | src/lib/slug.ts:8-11 | the `replace` steps turn a string without letters or numbers into `""` |
| Slug.TitleProperty | src/lib/slug.ts:16-18 | `title` is used when present; otherwise `Name` is used, and nothing when both are absent |
| Slug.GetPostTitleText | src/lib/slug.ts:14-25 | the title text is never empty and is already trimmed, and is either `"Untitled"` or the trimmed first span of a title-typed property |
| Slug.TitleWithoutText | src/lib/slug.ts:20-24 | without a title-typed property whose first span trims to non-empty text, the title is `"Untitled"` |
| Slug.TitleTextOfFirstSpan | src/lib/slug.ts:20-21 | a title-typed property whose first span trims to non-empty text gives that trimmed text |
| Slug.TitleNotTitleTyped | src/lib/slug.ts:16-24 | a `title` property that is not title-typed gives `"Untitled"` without consulting `Name` |
| Slug.TitleIgnoresName | src/lib/slug.ts:16-18 | when `title` is present, `Name` does not affect the result |
| Slug.TitleFallsBackToName | src/lib/slug.ts:16-18 | when `title` is absent, `Name` is read as if it were `title` |
| Slug.GetPostSlugFromTitle | src/lib/slug.ts:27-30 | a page's slug, by the pipeline as written, is a lower-case slug, and an untitled page's slug is `"untitled"` |
| Slug.UntitledSlug | src/lib/slug.ts:24 | the as-written pipeline turns `"Untitled"` into `"untitled"` |
| SlugExamples.EmptyTitle | src/lib/slug.ts:3-12 | `""` yields `""`, by the pipeline as written and by the corrected one |
| SlugExamples.HelloWorld | src/lib/slug.ts:3-12 | `"  Hello, World!  "` yields `"hello-world"`, by the pipeline as written and by the corrected one |
| SlugExamples.HyphenRun | src/lib/slug.ts:3-12 | `"A---B"` yields `"a-b"`, by the pipeline as written and by the corrected one |
| SlugExamples.SpacedHyphen | src/lib/slug.ts:3-12 | `"a - b"` yields `"a-b"`, by the pipeline as written and by the corrected one |
| SlugExamples.AsWrittenNotIdempotent | src/lib/slug.ts:3-12 | for every leading consonant jamo L and vowel jamo V, the pipeline maps `L!V` to `LV` and `LV` to the composed syllable, so a second pass changes the result |
| SlugExamples.AsWrittenNotIdempotentOnGaTitle | src/lib/slug.ts:3-12 | U+1100 `!` U+1161 yields U+1100 U+1161, which yields U+AC00 |
| SlugExamples.CorrectedComposesJamo | src/lib/slug.ts:3-12 | the corrected pipeline composes the jamo of `L!V` in one pass |
| PostsSection.LabelInjective | src/components/PostsSection.tsx:11 | distinct categories have distinct labels |
| PostsSection.IsDoneStatus | src/components/PostsSection.tsx:19-29 | a post is published exactly when its `Status` property is status-typed and names `"Done"` |
| PostsSection.GetPostCategory | src/components/PostsSection.tsx:31-42 | the category is never 전체; a named category is the one the select names; the catch-all means the select names none of 개발, 회고, 후기 |
| PostsSection.AllLabelIsEtc | src/components/PostsSection.tsx:31-42 | a select naming 전체 falls into 기타 |
| PostsSection.Listed | src/components/PostsSection.tsx:50-57 | a listed post is Done; under 전체 every Done post is listed; under any other tab a listed post is in that category |
| PostsSection.ListedUnderOneTab | src/components/PostsSection.tsx:50-57 | a post is listed under at most one tab besides 전체, the one naming its category |
| PostsSection.FilteredPosts | src/components/PostsSection.tsx:49-60 | the filtered posts are exactly the Done posts in the selected category (any category for 전체) |
| PostsSection.FilteredIsSubsequence | src/components/PostsSection.tsx:49-60 | the two-stage filter is one order-preserving filter by "Done and in the selected tab" |
| PostsSection.TotalPages | src/components/PostsSection.tsx:62-65 | the page count is at least 1, its pages hold all n posts, and it is the least such count above 1 |
| PostsSection.SafeCurrentPage | src/components/PostsSection.tsx:67 | the shown page is the smaller of the current page and the page count |
| PostsSection.SafeCurrentPageInRange | src/components/PostsSection.tsx:67 | a current page of at least 1 is shown within `[1, totalPages]` |
| PostsSection.PaginatedPosts | src/components/PostsSection.tsx:69-73 | page p holds at most nine posts and is the slice `[(p-1)*9, p*9)` clamped to the list |
| PostsSection.PagesUpToIsPrefix | src/components/PostsSection.tsx:69-73 | pages 1..k together are the first 9k filtered posts |
| PostsSection.PagesCoverFiltered | src/components/PostsSection.tsx:62-73 | pages 1..totalPages together are the filtered posts exactly |
| PostsSection.PageBeyondLastIsEmpty | src/components/PostsSection.tsx:69-73 | a page past the last one is empty |
| PostsSection.RowTitle | src/components/PostsSection.tsx:117-120 | the row title is the untrimmed text of the first title span, or `"Untitled"` |
| PostsSection.RowDate | src/components/PostsSection.tsx:122-133 | a date is shown exactly for a date-typed `Publication Date` with a non-empty start, and it is that start; otherwise "Date not set" |
| PostsSection.Badge | src/components/PostsSection.tsx:166 | the badge is the category's label for every category but the catch-all, and the catch-all shows `"글 보기"` instead of 기타 |
| PostsSection.RowOf | src/components/PostsSection.tsx:113-166 | a post has a row exactly when its `slug` is rich-text-typed with a non-empty first span; the row carries that slug and the title, date and badge above |
| PostsSection.Rows | src/components/PostsSection.tsx:112-171 | the rows are, one for one and in order, the rows of the posts that have one |
| PostsSection.RowsComplete | src/components/PostsSection.tsx:140-146 | every post with a usable slug gets its row |
| PostsSection.RowTitleIgnoresName | src/components/PostsSection.tsx:113-120 | a row never falls back to the `Name` property |
| PostsSection.PostsSectionState.constructor | src/components/PostsSection.tsx:45-47 | the first render selects 전체 on page 1 |
| PostsSection.PostsSectionState.LastPage | src/components/PostsSection.tsx:62-65 | the page count of the current state is at least 1 |
| PostsSection.PostsSectionState.ShownPage | src/components/PostsSection.tsx:67 | in every valid state the shown page lies in `[1, totalPages]` |
| PostsSection.PostsSectionState.Visible | src/components/PostsSection.tsx:69-73 | at most nine posts are shown, each one of the given posts and listed under the selected tab |
| PostsSection.PostsSectionState.HandleChangeCategory | src/components/PostsSection.tsx:75-78 | the tab is set and the page reset to 1 |
| PostsSection.PostsSectionState.HandleChangePage | src/components/PostsSection.tsx:80-83 | a page outside `[1, totalPages]` changes nothing, any other page is set; the page stays at least 1 |
| PostsSection.PostsSectionState.ReceivePosts | src/components/PostsSection.tsx:44-47 | new posts keep the tab and page, and the page stays at least 1 |
| Notion.FirstHexRun | src/lib/notion.ts:35 | the match of `/[a-f0-9]{32}/i` is the leftmost position with 32 hex digits, and none means there is no such position |
| Notion.FormatUuid | src/lib/notion.ts:38-39 | the formatted id has length 36 and hyphens at 8, 13, 18 and 23 |
| Notion.FormatUuidRoundTrip | src/lib/notion.ts:38-39 | removing the hyphens gives the 32 digits back, case unchanged, and hex digits give the UUID layout |
| Notion.NormalizeDatabaseId | src/lib/notion.ts:28-44 | the id is rejected exactly when it is missing or empty |
| Notion.NormalizeExtractsLeftmostRun | src/lib/notion.ts:35-40 | an id whose leftmost hex run starts at i becomes that run in UUID layout |
| Notion.NormalizeTrimsOtherIds | src/lib/notion.ts:42-43 | an id without a hex run is trimmed |
| Notion.WhitespaceIdIsEmpty | src/lib/notion.ts:29-43 | a whitespace-only id is not rejected and becomes `""` |
| Notion.UuidLayoutHasNoHexRun | src/lib/notion.ts:35-39 | a hyphenated id contains no 32-hex-digit run |
| Notion.NoHexRunInSlice | src/lib/notion.ts:42-43 | a trimmed id without a hex run still has none |
| Notion.HyphenatedIdUnchanged | src/lib/notion.ts:42-43 | an id already in UUID layout is returned unchanged |
| Notion.NormalizeIdempotent | src/lib/notion.ts:28-44 | normalising a non-empty normalised id gives it back |
| Notion.IsFullPageObject | src/lib/notion.ts:7-9 | an entry is a full page exactly when it is a page entry carrying properties, and then it is the entry of the page read from it |
| Notion.FullPages | src/lib/notion.ts:7-9 | every full page object of the results is kept, and every kept page is a page entry with properties among the results |
| Notion.FullPagesInOrder | src/lib/notion.ts:73 | the published posts are the full page objects of the results, one for one and in order |
| Notion.MapQueryError | src/lib/notion.ts:74-87 | an `object_not_found` code becomes the not-found error naming the database id, and anything else is rethrown unchanged |
| Notion.NotFoundHeadline | src/lib/notion.ts:76-77 | the not-found message contains the database id |
| Notion.GetPublishedPosts | src/lib/notion.ts:50-88 | a bad id ends with the missing-id error; a successful query returns exactly its full pages; a client failure ends with the mapped error |
| Notion.GetPostBySlug | src/lib/notion.ts:94-138 | a blank slug gives no post; a non-blank slug with a bad id ends with the missing-id error; a found post is a page entry of the query for the trimmed slug |
| Notion.BlankSlugSkipsQuery | src/lib/notion.ts:97-101 | a blank slug gives no post whatever the id setting and the client |
| Notion.PostBySlugIsFirstFullPage | src/lib/notion.ts:118-123 | the post found is the first full page of the query results, or none when there is none |
| Notion.PostBySlugMapsErrors | src/lib/notion.ts:124-137 | a client failure in the lookup ends with the mapped error |

## Left out

- Unicode beyond the modelled repertoire. Letters, numbers and case mappings outside U+0000–U+00FF, U+1100–U+11FF, U+3131–U+318E and U+AC00–U+D7A3 are not modelled. Such characters count as neither letters nor numbers, so the model deletes them at src/lib/slug.ts:8 where the source keeps the letters among them; other Hangul letters are among these: Hangul Jamo Extended-A (U+A960–U+A97C), Hangul Jamo Extended-B (U+D7B0–U+D7C6, U+D7CB–U+D7FB) and the halfwidth Hangul letters (U+FFA0–U+FFDC). Lower-casing leaves them unchanged. NFC decomposition and all non-Hangul compositions are not modelled. Full Unicode tables are too large to state here.
- `getPageBlocks` (src/lib/notion.ts:143-158). It is a cursor loop over network pagination, and whether it terminates depends on the server.
- The Notion client itself. `databases.query` is a function parameter from a query to its results or to what it throws. How the client builds the `rich_text equals` filter and paginates its results (`has_more`) is not modelled.
- Environment variables. `NOTION_DATABASE_ID` is an `Option<string>` parameter. The `console.log` debugging output (src/lib/notion.ts:11-17, 53-54) has no effect on results and is left out.
- Notion.NotFoundHeadline: only the first line of the not-found diagnostic is modelled; the fixed how-to-fix lines that follow it carry no data.
- Notion.GetPostBySlug: `slug` is a string, so the `undefined` case that `slug?.trim()` guards against is not modelled.
- Date formatting. `toLocaleDateString("ko-KR", …)` depends on the locale and time zone, so a set date is kept as its start text.
- The JSX markup, CSS classes and `useMemo` caching. The pager's visibility (src/components/PostsSection.tsx:176) and the disabled state of its buttons are presentation.
- `src/components/ThemeToggle.tsx`, `src/components/CodeBlock.tsx`, `src/app/page.tsx`, `src/app/posts/[slug]/page.tsx`, the tests and `jest.config.js` are not part of this model. They are UI, wrappers over other libraries, page composition and configuration.
- PostsSection.PaginatedPosts: the slice is stated for pages of at least 1. The component never asks for a lower page, because the shown page is always at least 1.

## Findings

A slug function is expected to be idempotent: the slug of a slug is that slug again. `createSlugFromTitle` is not idempotent on every input.

| source | as written | input that shows it | evidently intended | confidence | as-written member | corrected member |
|---|---|---|---|---|---|---|
| src/lib/slug.ts:3-12 | NFC runs before the `replace` that deletes punctuation, so jamo separated only by punctuation are brought together after composition has run | U+1100 `!` U+1161 gives U+1100 U+1161; a second call gives U+AC00 | a slug that is in NFC and that a second call leaves unchanged | not executed | Slug.CreateSlugFromTitleAsWritten, SlugExamples.AsWrittenNotIdempotent | Slug.CorrectedSlugFromTitle, Slug.SlugIdempotent |

`Slug.CreateSlugFromTitleAsWritten` models the code as written, and `getPostSlugFromTitle` (`Slug.GetPostSlugFromTitle`) uses it, as the source does. `Slug.CorrectedSlugFromTitle` is the proposed fix: it applies NFC once more at the end. `Slug.AsWrittenTwice` relates the two: the as-written pipeline run twice equals the corrected pipeline run once. `Slug.AsWrittenIdempotentIff` says exactly when the code as written is idempotent.
