# A verified model of the blog's core logic

This project models, in Dafny, the logic of a Next.js blog that stores its data through Prisma:

- **Posts routes.** The public post listing and post creation: the `published` filter, newest-first order, `take`/`skip` pagination with its `hasMore` flag, slug normalisation and the unique-slug loop, tag lowercasing and the read-time estimate.
- **Search and own-posts routes.** The search endpoint and the author's own-posts endpoint.
- **Permissions.** The role policy.
- **Settings.** The settings endpoints, the registration switch, and the script that seeds the first administrator.
- **Admin dashboard.** Page count, page offset, the page-number window, the endpoint choice, the settings reduction and the delete step-back.
- **Editor and UI helpers.** The post editor's tag field and save payload, the search box, the highlight splitter, and date formatting.

The database is held in memory: the tables are classes whose fields the writing handlers update (`Store.PostTable`, `Store.UserTable`, `Store.SettingsTable`). Read-only handlers are functions of a snapshot of the rows. The session, the request's parameters and body, and the clock are inputs. Strings are `seq<char>`, and case folding is ASCII.

Modules, one per source file:

- `Text` and `Store` hold what several files share: JavaScript string operations, entities, tables, ordering and pagination.
- `PostsRoute`, `SearchRoute`, `MyPostsRoute`, `SettingsRoute` and `RegistrationRoute` model the API routes.
- `Permissions` models the role policy.
- `CreateAdminScript` models the seeding script.
- `AdminPage`, `MarkdownEditor`, `SearchBox` and `Highlight` model the components.
- `Utils` models `formatDate`.

Where the documented intent and the code disagree, the model follows the code:

- The search route requires `published: true` even when an `authorId` is given, so an author never finds their own drafts by search (`SearchRoute.TagMatchFound`).
- The read time counts the pieces between single spaces, not words, so runs of spaces and newlines count differently from words (`PostsRoute.ReadTime`).
- A title with no ASCII letter or digit gives the empty base slug, and the code defines no fallback. Its candidates are then `""`, `"-1"`, `"-2"`, … (`PostsRoute.NoAlnumTitleGivesEmptyBase`).
- Saving a setting without a `description` keeps the stored description. Prisma reads `undefined` in `update` as "leave unchanged" (`SettingsRoute.SaveSetsKeyOnly`).

## Model

| member | source | states |
|---|---|---|
| `Permissions.HasRole` | src/lib/permissions.ts:6-10 | no role grants nothing; ADMIN grants every role; POSTER grants exactly POSTER |
| `Permissions.IsAdmin` | src/lib/permissions.ts:12-14 | holds exactly when the role is ADMIN, i.e. when `hasRole(role, ADMIN)` |
| `Permissions.CanManagePosts` | src/lib/permissions.ts:16-18 | holds exactly for a session that has some role |
| `Permissions.CanManageAllPosts` | src/lib/permissions.ts:20-22 | holds exactly for ADMIN |
| `Permissions.CanManageUsers` | src/lib/permissions.ts:24-26 | holds exactly for ADMIN |
| `Permissions.CanAccessAdmin` | src/lib/permissions.ts:28-30 | holds exactly for ADMIN |
| `Permissions.AdminSubsumesPoster` | src/lib/permissions.ts:6-30 | every capability of POSTER is one of ADMIN; without a role no capability holds; ADMIN holds all |
| `Permissions.HasRoleOrdered` | src/lib/permissions.ts:6-10 | `hasRole` is monotone: POSTER's rights are ADMIN's too; no role has none |
| `Store.SessionUserId` | src/app/api/posts/route.ts:58 | the user id is present exactly when the session has a non-empty id, and is that id |
| `Store.PostTable.Create` | src/app/api/posts/route.ts:102-125 | `post.create` appends the new row and keeps the others |
| `Store.UserTable.Create` | scripts/create-admin.ts:26-40 | `user.create` appends the new row and keeps the others |
| `Store.SettingsTable.Upsert` | src/app/api/settings/route.ts:59-63 | the table becomes the upsert of its old entries |
| `Store.ApplyUpdate` | src/app/api/settings/route.ts:61 | each column of the update replaces the stored one when given, and is left as it was when `undefined` |
| `Store.UpsertEntries` | src/app/api/settings/route.ts:59-63 | the key is added; an existing row is updated, a missing one created; every other key keeps its row |
| `Store.UpsertIdempotent` | src/app/api/settings/route.ts:59-63 | repeating an upsert whose update leaves its created row alone changes nothing |
| `Store.Slugs` | src/app/api/posts/route.ts:87-89 | the set of slugs holds exactly the slugs of the rows |
| `Store.Filter` | src/app/api/posts/route.ts:14-16 | the rows a `where` selects: exactly the rows that satisfy it, each as many times as the table holds it, a sub-multiset of the table |
| `Store.InsertByDate` | src/app/api/posts/route.ts:27-29 | inserting into a newest-first list keeps it newest first and adds exactly the one row |
| `Store.SortNewestFirst` | src/app/api/posts/route.ts:27-29 | `orderBy createdAt desc`: the result is newest first and a permutation of the rows |
| `Store.SortKeepsMembers` | src/app/api/posts/route.ts:27-29 | sorting neither adds nor loses a row |
| `Store.Window` | src/app/api/posts/route.ts:30-31 | `take`/`skip`: the window's length, and its i-th row is row `offset + i` |
| `Store.Paginate` | src/app/api/posts/route.ts:40-44 | `total` is the matching count; the page respects the limit; past the end it is empty; `hasMore` holds exactly when `offset + posts.length < total`, exactly when a limit leaves rows beyond the page |
| `Store.PageContents` | src/app/api/posts/route.ts:13-32 | a page holds only matching rows, newest first, and all of them without limit or offset |
| `Store.WindowMembers` | src/app/api/posts/route.ts:30-31 | a window holds only rows of the list |
| `Store.WindowKeepsOrder` | src/app/api/posts/route.ts:27-31 | a window of a newest-first list is newest first |
| `Store.PagePosts` | src/app/api/posts/route.ts:13-32 | a page's posts are the window of the sorted matches at the offset |
| `Store.AdjacentWindows` | src/app/api/posts/route.ts:30-31 | two windows of size `limit`, one after the other, form the window of size `2 * limit` |
| `Store.ConsecutivePages` | src/app/api/posts/route.ts:13-32 | consecutive pages cover the ordered rows without gap or overlap |
| `PostsRoute.ListingFilter` | src/app/api/posts/route.ts:15 | any status exactly for `'all'`, drafts exactly for `'false'`, published otherwise, absence included |
| `PostsRoute.ListPosts` | src/app/api/posts/route.ts:6-44 | GET: only rows of the table that pass the filter (published ones unless `'all'`/`'false'`); total is the filter's count; newest first; limit respected; every match without limit or offset; the `hasMore` rule; no `hasMore` without a limit |
| `PostsRoute.DropRun` | src/app/api/posts/route.ts:79 | drops the leading run outside `[a-z0-9]`: a suffix that is empty or starts with a letter or digit |
| `PostsRoute.CollapseRuns` | src/app/api/posts/route.ts:79 | the result is letters, digits and single hyphens, empty exactly for the empty input, starting with a hyphen exactly when the input starts outside `[a-z0-9]` (where the hyphens go is `PostsRoute.CollapseRunsWords`) |
| `PostsRoute.Words` | src/app/api/posts/route.ts:79 | the reference split into maximal `[a-z0-9]` runs: every word is non-empty and made of letters and digits only; text starting with a letter or digit has at least one word |
| `PostsRoute.CollapseRunsWords` | src/app/api/posts/route.ts:79 | collapsing text that starts with a letter or digit gives its words joined by single hyphens, plus one hyphen when it ends outside `[a-z0-9]` |
| `PostsRoute.NormalizeSlug` | src/app/api/posts/route.ts:77-80 | the base slug is well formed (`[a-z0-9]` runs joined by single hyphens, none at either end) and no longer than the title |
| `PostsRoute.NormalizeSlugWords` | src/app/api/posts/route.ts:77-80 | the base slug is exactly the words of the lowercased title joined by single hyphens: each run of other characters between two words becomes one hyphen, the runs at either end vanish |
| `PostsRoute.TwoWordsSlug` | src/app/api/posts/route.ts:77-80 | two words in any letter case, with a non-empty run of other characters between them and possibly one after them, give the two words lowercased and joined by one hyphen |
| `PostsRoute.HelloWorldSlug` | src/app/api/posts/route.ts:77-80 | the title `"Hello, World!"` gives the base slug `"hello-world"` |
| `PostsRoute.CollapseRunsShorter` | src/app/api/posts/route.ts:79 | collapsing never lengthens the text |
| `PostsRoute.SlugKeepsAlnums` | src/app/api/posts/route.ts:77-80 | the slug keeps every letter and digit of the lowercased title, in order, and adds none |
| `PostsRoute.CollapseRunsFixesHyphenated` | src/app/api/posts/route.ts:79 | text already of letters, digits and single hyphens is left unchanged |
| `PostsRoute.NormalizeSlugIdempotent` | src/app/api/posts/route.ts:77-80 | normalising a slug again changes nothing |
| `PostsRoute.NoAlnumTitleGivesEmptyBase` | src/app/api/posts/route.ts:77-96 | a title with no ASCII letter or digit gives the empty base, and its k-th candidate is `"-k"` |
| `PostsRoute.CandidateInjective` | src/app/api/posts/route.ts:96 | different attempts try different slugs |
| `PostsRoute.ChooseUniqueSlug` | src/app/api/posts/route.ts:82-98 | the loop ends and returns the first of base, `base-1`, `base-2`, … not taken |
| `PostsRoute.FirstFreeCandidateUnique` | src/app/api/posts/route.ts:82-98 | the loop's result is determined by the base and the taken slugs |
| `PostsRoute.FirstCollisions` | src/app/api/posts/route.ts:82-98 | a free base is used as is; a taken base with a free `-1` form gets `-1` |
| `PostsRoute.ReadTime` | src/app/api/posts/route.ts:100 | `ceil(pieces / 200)`: at least 1, and the smallest multiple of 200 covering the piece count (spaces + 1) |
| `PostsRoute.NormalizeTags` | src/app/api/posts/route.ts:68 | no tags give `[]`; otherwise each tag lowercased in place, and every stored tag is lowercase |
| `PostsRoute.TagsExample` | src/app/api/posts/route.ts:68 | `["Tech", "WEB"]` is stored as `["tech", "web"]` |
| `PostsRoute.CreatePost` | src/app/api/posts/route.ts:54-127 | POST: 401 without a user id, 400 without a title or content (table unchanged in both); otherwise 201 with the one appended row built from the body, the unique slug, the read time, `publishedAt` set only when published, and the author; unique slugs stay unique |
| `PostsRoute.CreatedSlugIsFresh` | src/app/api/posts/route.ts:82-115 | the created slug is new to the table, slugs stay unique, the read time is at least 1, and `publishedAt` is set exactly for a published post |
| `SearchRoute.SearchPosts` | src/app/api/posts/search/route.ts:4-86 | a missing or blank query gives an empty page; otherwise only published table rows that match the query (and the author when given), the count of the same `where`, newest first, limit respected, every match without limit or offset, and the `hasMore` rule |
| `SearchRoute.MatchesAtSomePosition` | src/app/api/posts/search/route.ts:28-43 | the case-insensitive `contains` holds exactly when the lowercased query occurs at some position of the lowercased field |
| `SearchRoute.QueryCaseIrrelevant` | src/app/api/posts/search/route.ts:21-50 | a query and its lowercase select the same posts |
| `SearchRoute.TagMatchFound` | src/app/api/posts/search/route.ts:24-56 | a post tagged with the lowercased query is selected exactly when it is published and by the requested author, if any |
| `SearchRoute.EveryMatchReturned` | src/app/api/posts/search/route.ts:59-76 | without limit or offset every matching post is returned |
| `MyPostsRoute.MyStatusFilter` | src/app/api/posts/my/route.ts:23-25 | published-only exactly for `'true'`, drafts-only exactly for `'false'`, no filter otherwise |
| `MyPostsRoute.MyPosts` | src/app/api/posts/my/route.ts:6-42 | 401 exactly without a user id; otherwise 200 with the author's own posts passing the filter, newest first, a permutation of all of them |
| `MyPostsRoute.NoPagination` | src/app/api/posts/my/route.ts:20-40 | every post of the author that passes the filter is returned |
| `MyPostsRoute.UnknownStatusReadDifferently` | src/app/api/posts/my/route.ts:23-25 | an unrecognised `published` value means published-only in the public listing and no filter here |
| `SettingsRoute.GetSettings` | src/app/api/settings/route.ts:7-29 | 401 exactly for a non-admin session; with a key, that key's row or `null`; without one, every row |
| `SettingsRoute.SaveSetting` | src/app/api/settings/route.ts:39-65 | 401 for a non-admin, 400 without a key or value (table unchanged in both); otherwise the upsert and 201 with the stored row |
| `SettingsRoute.SaveSetsKeyOnly` | src/app/api/settings/route.ts:59-63 | after a save the key holds the value, the given description (or the kept one), and every other key is untouched |
| `SettingsRoute.SaveIdempotent` | src/app/api/settings/route.ts:59-63 | saving the same setting twice is saving it once |
| `SettingsRoute.SaveThenGet` | src/app/api/settings/route.ts:21-63 | reading a key back after saving it gives the saved value |
| `RegistrationRoute.AllowRegistration` | src/app/api/settings/registration/route.ts:6-10 | open exactly when the `ALLOW_REGISTRATION` row exists with value exactly `'true'` |
| `RegistrationRoute.OnlyRegistrationKeyRead` | src/app/api/settings/registration/route.ts:6-10 | tables that agree on `ALLOW_REGISTRATION` agree on the answer |
| `RegistrationRoute.OtherValuesClose` | src/app/api/settings/registration/route.ts:10 | other spellings (`'TRUE'`, `'True'`, `'1'`, `''`, `'false'`) keep sign-up closed |
| `CreateAdminScript.Seed` | scripts/create-admin.ts:6-53 | with the admin e-mail present nothing changes; otherwise one ADMIN user is appended and `ALLOW_REGISTRATION` is created as `'true'` unless it already exists, in which case it is kept |
| `CreateAdminScript.CreateAdmin` | scripts/create-admin.ts:6-53 | the script's search loop and writes leave exactly the state `Seed` describes |
| `CreateAdminScript.SeedIdempotent` | scripts/create-admin.ts:13-20 | running the script a second time changes nothing |
| `CreateAdminScript.SeedRegistration` | scripts/create-admin.ts:45-53 | on a fresh database registration opens; an existing setting keeps its answer; one user is added |
| `AdminPage.TotalPages` | src/app/admin/page.tsx:79 | `ceil(total / 10)`: zero exactly for no posts, the least page count covering every post |
| `AdminPage.PageOffset` | src/app/admin/page.tsx:122 | from page 1 on, the offset is a non-negative multiple of 10 |
| `AdminPage.HasMoreUntilLastPage` | src/app/admin/page.tsx:122-126 | the listing reports more posts exactly when the current page is before the last |
| `AdminPage.PagesWithinTotal` | src/app/admin/page.tsx:79-122 | every page from the first to the last starts inside the list |
| `AdminPage.PageWindow` | src/app/admin/page.tsx:503-513 | `min(5, totalPages)` buttons of consecutive page numbers, all at least 1 |
| `AdminPage.WindowWellFormed` | src/app/admin/page.tsx:503-513 | for a current page within range the buttons name only real pages and include the current one |
| `AdminPage.WindowCentred` | src/app/admin/page.tsx:511-512 | away from both ends the current page is the middle button |
| `AdminPage.PostsEndpoint` | src/app/admin/page.tsx:122-126 | search (with the untrimmed query) exactly when the query is not blank, else the listing with `published=all`; limit 10 and the page's offset |
| `AdminPage.EndpointAgreesWithRoutes` | src/app/admin/page.tsx:124-126 | the search route never gets a query it would answer with an empty page; the listing shows all statuses |
| `AdminPage.ReduceSettings` | src/app/admin/page.tsx:134-137 | the object has exactly the keys of the rows |
| `AdminPage.ReduceLastWins` | src/app/admin/page.tsx:134-137 | a key takes the value of its last row |
| `AdminPage.ToggleValue` | src/app/admin/page.tsx:174 | sends `'false'` exactly when the shown value is `'true'`, and otherwise `'true'` |
| `AdminPage.ToggleFlipsRegistration` | src/app/admin/page.tsx:165-177 | saving the toggle's value flips whether registration is open |
| `AdminPage.AdminDashboard.constructor` | src/app/admin/page.tsx:66-76 | the initial state: users tab, page 1, empty query, no posts, no settings |
| `AdminPage.AdminDashboard.Request` | src/app/admin/page.tsx:122-126 | on a valid page the request's offset is not negative |
| `AdminPage.AdminDashboard.HandleTabChange` | src/app/admin/page.tsx:82-87 | the tab changes; the posts tab restarts at page 1; nothing else changes |
| `AdminPage.AdminDashboard.HandleSearch` | src/app/admin/page.tsx:95-98 | the query is stored and the page resets to 1; nothing else changes |
| `AdminPage.AdminDashboard.HandlePageChange` | src/app/admin/page.tsx:90-92 | the page becomes the given one; nothing else changes |
| `AdminPage.AdminDashboard.ClickPrevious` | src/app/admin/page.tsx:484-494 | with more than one page and not on page 1 the page goes back one, else nothing changes |
| `AdminPage.AdminDashboard.ClickNext` | src/app/admin/page.tsx:484-533 | with more than one page and not on the last the page goes forward one, never past the last |
| `AdminPage.AdminDashboard.ClickPageNumber` | src/app/admin/page.tsx:503-520 | the page becomes the button's number, never past the last |
| `AdminPage.AdminDashboard.LoadPosts` | src/app/admin/page.tsx:129-130 | the page's post count and the total are stored; nothing else changes |
| `AdminPage.AdminDashboard.LoadSettings` | src/app/admin/page.tsx:132-138 | the settings values become the reduction of the rows |
| `AdminPage.AdminDashboard.DeleteSucceeded` | src/app/admin/page.tsx:193-199 | removing the last post of a later page steps back a page; otherwise the page refetches in place |
| `MarkdownEditor.TrimNonEmpty` | src/components/editor/MarkdownEditor.tsx:51 | trimming and dropping empty pieces never adds a tag |
| `MarkdownEditor.TrimNonEmptyClean` | src/components/editor/MarkdownEditor.tsx:51 | from comma-free pieces only non-empty, trimmed, comma-free tags remain |
| `MarkdownEditor.ParseTags` | src/components/editor/MarkdownEditor.tsx:51 | every parsed tag is non-empty, trimmed and comma-free; at most one more tag than commas (which tags, in which order, is `MarkdownEditor.ParseTagsAtComma` with `MarkdownEditor.OneTagWithoutComma`) |
| `MarkdownEditor.TrimNonEmptyOne` | src/components/editor/MarkdownEditor.tsx:51 | one piece gives its trimmed text, or no tag when it is blank |
| `MarkdownEditor.TrimNonEmptyAppend` | src/components/editor/MarkdownEditor.tsx:51 | pieces are handled one at a time and in order: the tags of two runs of pieces are the first run's tags followed by the second's |
| `MarkdownEditor.ParseTagsAtComma` | src/components/editor/MarkdownEditor.tsx:51 | a comma cuts the field into two fields whose tags follow one another; with the comma-free case this fixes the tags of every field, piece by piece, in order |
| `MarkdownEditor.OneCleanTag` | src/components/editor/MarkdownEditor.tsx:51 | a non-empty, trimmed, comma-free field is that one tag |
| `MarkdownEditor.TwoTags` | src/components/editor/MarkdownEditor.tsx:51 | two clean tags with a comma between them, as `"a,b"`, give exactly those two tags in order |
| `MarkdownEditor.BlankPieceDropped` | src/components/editor/MarkdownEditor.tsx:51 | a blank piece between two tags, as in `"x, ,y"`, is dropped and the two tags remain in order |
| `MarkdownEditor.OneTagWithoutComma` | src/components/editor/MarkdownEditor.tsx:51 | a comma-free field holds at most one tag, its trimmed text |
| `MarkdownEditor.ParseJoinTags` | src/components/editor/MarkdownEditor.tsx:33-51 | a list of clean tags written with `join(', ')` parses back to the same list |
| `MarkdownEditor.ParseTagsStable` | src/components/editor/MarkdownEditor.tsx:33-51 | re-parsing the field a parsed list produces gives the same list |
| `MarkdownEditor.BuildPostData` | src/components/editor/MarkdownEditor.tsx:39-54 | nothing is sent exactly when the title or content is blank; otherwise the untrimmed title and content, the excerpt or `undefined` for `''`, the parsed tags, `published` only when not a draft, and `featured` |
| `MarkdownEditor.Editor.constructor` | src/components/editor/MarkdownEditor.tsx:30-36 | each field starts from the initial data or `''`/`false`; the tags start as the list joined with `', '` |
| `MarkdownEditor.Editor.HandleSave` | src/components/editor/MarkdownEditor.tsx:38-64 | `onSave`, when given, receives the built data; a blank title or content changes nothing; the form fields are never changed and loading ends cleared |
| `MarkdownEditor.UneditedTagsSurvive` | src/components/editor/MarkdownEditor.tsx:30-58 | opening a post and saving it untouched sends back its own (clean) tags |
| `SearchBox.Search.constructor` | src/components/ui/search.tsx:15-16 | the box starts empty and not searching |
| `SearchBox.Search.HandleSearch` | src/components/ui/search.tsx:18-21 | keeps the text as typed and reports its trim |
| `SearchBox.Search.HandleSubmit` | src/components/ui/search.tsx:23-29 | a blank query reports nothing and changes nothing; otherwise the box is searching, the query stays untrimmed, and its non-empty trim is reported |
| `SearchBox.Search.HandleClear` | src/components/ui/search.tsx:31-35 | the box empties, stops searching and reports `''` |
| `SearchBox.Search.HandleInputChange` | src/components/ui/search.tsx:37-45 | blank input clears the box and reports `''`; other input only replaces the text and reports nothing |
| `SearchBox.ReportedQuerySelectsSearch` | src/components/ui/search.tsx:18-21 | the trimmed query the box reports makes the admin page search exactly when the typed text is not blank |
| `Highlight.EscapeRegex` | src/components/ui/highlight.tsx:12 | the escape adds at most one backslash per character |
| `Highlight.EscapeIsLiteral` | src/components/ui/highlight.tsx:12 | the escaped term, read as a pattern, denotes exactly the term |
| `Highlight.DotIsEscaped` | src/components/ui/highlight.tsx:12 | `a.b` is not a literal pattern; its escape is the literal `a.b` |
| `Highlight.FirstMatchIsLeftmost` | src/components/ui/highlight.tsx:12-13 | the search finds the leftmost case-insensitive occurrence from a position, and none only when there is none |
| `Highlight.SplitConcat` | src/components/ui/highlight.tsx:13 | the parts from a position put back together give the rest of the text |
| `Highlight.SplitMatchedParts` | src/components/ui/highlight.tsx:12-13 | every odd part is an occurrence of the term, ignoring case |
| `Highlight.SplitLeftmost` | src/components/ui/highlight.tsx:12-13 | no occurrence begins inside an even part: occurrences are leftmost and do not overlap |
| `Highlight.Highlight` | src/components/ui/highlight.tsx:7-13 | a blank term gives the text as one part; there is always an odd number of parts |
| `Highlight.HighlightParts` | src/components/ui/highlight.tsx:7-13 | the parts give back the text; for a non-blank term the odd parts are its occurrences and no occurrence begins inside an even part |
| `Highlight.EmptyText` | src/components/ui/highlight.tsx:13 | the empty text is one empty part |
| `Highlight.DotMatchesOnlyDot` | src/components/ui/highlight.tsx:12-13 | the term `a.b` finds nothing in `axb` and exactly `a.b` in `a.b` |
| `Utils.PadStart` | src/lib/utils.ts:15-18 | `padStart`: length at least the width, the text at the end, fill characters before it |
| `Utils.Pad2RoundTrip` | src/lib/utils.ts:15-18 | below 100 a field prints as two digits that read back as the number |
| `Utils.FormatDateLayout` | src/lib/utils.ts:11-21 | for a four-digit year the text is 16 characters `yyyy/MM/dd HH:mm` whose fields read back as the year, month index + 1, day, hours and minutes |
| `Utils.FormatDateInjective` | src/lib/utils.ts:11-21 | different moments print differently |
| `Text.Trim` | src/components/ui/search.tsx:20 | `trim()`: the result is the input with only whitespace removed before it and after it, has no whitespace at either end, is empty exactly for all-whitespace input, and leaves trimmed text alone |
| `Text.BlankIffTrimsToEmpty` | src/app/api/posts/search/route.ts:12 | blank means "trims to the empty string" |
| `Text.TrimIdempotent` | src/components/ui/search.tsx:20 | trimming twice is trimming once |
| `Text.ToLowerIdempotent` | src/app/api/posts/search/route.ts:21 | lowercasing twice is lowercasing once |
| `Text.ContainsIffOccurs` | src/app/api/posts/search/route.ts:28-43 | `contains` holds exactly when the needle occurs at some index |
| `Text.Split` | src/components/editor/MarkdownEditor.tsx:51 | `split(',')`: one more piece than separators, none holding the separator |
| `Text.JoinSplit` | src/components/editor/MarkdownEditor.tsx:51 | joining the pieces of a split with the separator gives the text back |
| `Text.SplitAtSeparator` | src/components/editor/MarkdownEditor.tsx:51 | `split(',')` of text with a comma in it is the pieces before that comma followed by the pieces after it |
| `Text.SplitJoin` | src/components/editor/MarkdownEditor.tsx:33-51 | splitting the join of separator-free pieces gives the pieces back |
| `Text.NatToString` | src/lib/utils.ts:15 | `String(n)`: at least one digit, one more digit per factor of ten |
| `Text.ParseNatToString` | src/lib/utils.ts:15 | reading the decimal text of `n` gives `n` |
| `Text.NatToStringInjective` | src/app/api/posts/route.ts:96 | different numbers print differently |

## Left out

- Prisma, `NextResponse` and `getServerSession` are foreign libraries. The tables are in-memory sequences and maps. The session is an input of type `Option<SessionUser>`. Responses are `Success`/`Failure` values with the status code.
- The 500 replies of every `catch` block are not modelled. Neither is a body that is not JSON.
- The check-then-create slug race between concurrent requests is not modelled. The database's unique index would reject the loser, and each request is modelled on its own.
- `parseInt` of `limit` and `offset` is not modelled. The parameters are already-parsed natural numbers or absent, so `NaN`, negative values and trailing garbage are not represented.
- `bcrypt.hash` is left out. `CreateAdminScript.Seed` takes the resulting hash as an input.
- `console.log` and the `$disconnect` of the script are left out.
- Unicode case folding, the regex `i` flag and `mode: 'insensitive'` are modelled for ASCII letters only.
- Prisma's `contains` is a plain substring test here; the database's treatment of `%` and `_` in the query is not modelled.
- The `regex.test(part)` on the global regex in the highlight component is left out. Its `lastIndex` carries over between calls, so which parts get a `<mark>` is a quirk of the JavaScript engine. Only the split is modelled.
- JSX rendering, alert dialogs, toasts, `fetch` and its asynchronous ordering, `useEffect` redirects and the loading screen are not modelled.
- The admin users tab, `toggleUserStatus` and `togglePostPublish` call routes that are not part of this model.
- src/app/dashboard/page.tsx and src/app/page.tsx are not part of this model: they are UI and fetch orchestration. The home page follows the admin page's pattern (`AdminPage.PageOffset`, `AdminPage.PostsEndpoint`) but with 12 posts per page and the published-only listing (`published=true`) instead of `published=all`.
- `formatDateTime` is not modelled. It parses a date string with `new Date` in the local time zone before calling `formatDate`. `Utils.FormatDate` takes the calendar fields `Date` would report.
- `cn` is a `clsx`/`tailwind-merge` wrapper and is not modelled.
- Database defaults (`id`, `updatedAt`, `views`) are not modelled. `createdAt` is taken as the same clock reading as `publishedAt`.
- JSON `null` and `undefined` are one `None`. A settings body with `value: null` passes the handler's check and then fails in the database; that path is not modelled. A body with `description: null` would make Prisma set the stored description to NULL; the model reads it as an absent description and keeps the stored one.
- The editor's `onChange` setters are plain field assignments and are not modelled as methods. The `loading` flag is modelled only as it stands after `handleSave` returns, not its transient `true` during the await. A rejected `onSave` (the toast path) is not modelled.
- `MarkdownEditor.TrimNonEmpty` states only the length bound in its own contract. Cleanliness of the tags is `MarkdownEditor.TrimNonEmptyClean`; which tags come out, in which order, is `MarkdownEditor.TrimNonEmptyOne` with `MarkdownEditor.TrimNonEmptyAppend`.
- `AdminPage.PageOffset` states non-negativity and the multiple of 10 only from page 1 on, because `handlePageChange` accepts any number.
- Store.ConsecutivePages: holds for the one newest-first order `Store.SortNewestFirst` fixes. The database leaves the order of rows with equal `createdAt` unspecified, and separate page requests may order such ties differently. So for the system itself the no-gap, no-overlap promise holds only when `createdAt` values are distinct. The same goes for `Store.AdjacentWindows` and `Store.PagePosts` read across requests.
