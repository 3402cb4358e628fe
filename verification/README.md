# Verification model of the personal site

This project models the parts of the site whose correctness depends on more than
one function, and proves what they promise for every input, every interleaving
and every run.

| file | what it models |
|---|---|
| `Limiter.dfy` | the login limiter: the critical section as a class over its mutable map, and around it a running process in which calls read the clock, wait, and enter the mutex in any order |
| `Login.dfy` | the login handler on top of it, sequentially as a class and with requests in flight together as a step system |
| `Migrations.dfy` | what is pending: the loops and the sort, and the order of versions |
| `Rollback.dfy` | `Up` and `Down` alone, and as processes around one lock with the check outside it |
| `Text.dfy`, `Base64.dfy` | splitting, decimal integers, unpadded base64 over either alphabet |
| `Session.dfy`, `Password.dfy` | the session cookie and the argon2id encoding, printed and parsed |
| `ListUrl.dfy`, `Paging.dfy`, `ListScreen.dfy` | the URL of a list screen, following "load more" over a list, and both together |
| `Search.dfy` | LIKE with backtracking, and the search built on it |
| `Slug.dfy`, `Store.dfy` | the slug pattern, the schema's constraints, and the writes |
| `Calendar.dfy` | the editor's date field: Gregorian dates, text, instants in a fixed zone |
| `Editor.dfy` | save, publish now and autosave as whole requests, over runs of them |
| `Autosave.dfy` | autosave taken apart into load, test, second read and write |

Objects the program updates in place are classes (`Limiter.Limiter`,
`Login.Handler`, `Rollback.Database`, `Store.Store`, `Editor.Handler`), and every
method is proved equal to a function on the old state; the lemmas are about those
functions. Go strings are `string`s whose characters stand for bytes. Times are
nanoseconds in the limiter and the session, microseconds in the stored dates.

## Where the code and its documentation differ

- The list screens ask for 51 rows a page and show 50, and the page offset grows
  by 51 as well, so every 51st row is never shown
  (`internal/admin/lists.go:74-88`). `Paging.LoadMoreShows` states exactly what is
  shown; `Paging.StrideOfFiftyShowsAll` shows that pages 50 rows apart would show
  everything.
- The comment on `Down` (`internal/database/migrate.go:70-76`) says a rollback
  happens only on a fully applied schema. The check is made before the lock is
  taken, so two rollbacks can pass it together and the second then runs with a
  migration pending (`Rollback.RollbackMayRunWhilePending`). Over every
  interleaving the schema is full when the lock is taken exactly when as many
  versions were applied as reversed since the check (`Rollback.FullAtLockIff`).
  What always holds, and is enough, is that the applied versions are a prefix of
  the sorted list (`Rollback.RollbackIsSafe`, `Rollback.PositionalIffPrefix`).
- The comment on autosave (`internal/admin/writing.go:202-209`) says it never
  writes the Publication Date and never changes published writing. It writes the
  whole row with the date of its own second read, so a save in between can lose
  its date or have its text overwritten, and a scheduled date can arrive in
  between. `Autosave.HarmIff` says exactly when it alters a date and exactly when
  it changes a row the public can see; three lemmas give a run of each kind.
- The limiter reads the clock before it takes the mutex
  (`internal/admin/ratelimit.go:41-43`). When a later reading enters first, its
  sweep can drop a window that a delayed call should still have been counted in
  (`Limiter.CrossedReadsExposeTheSweep`). `Limiter.SweepUnobservableIff` says
  exactly which runs open a window the key's own counter would not have opened,
  and the bound on admissions has the longest wait in it.
- `ErrTitleRequired` speaks of whitespace (`internal/content/errors.go:30`), but
  the constraint trims spaces only. `Store.BlankTitles` says which titles of white
  space alone are refused, and `Store.TabTitleIsStored` stores one.

## Model

The rows marked "instance" give one run of a general result above them; the rows
marked "anchor" pin definitions to known values. Neither is a main result.

| member | source | states |
|---|---|---|
| Limiter.Limiter.Allow | internal/admin/ratelimit.go:40-61 | the sweep loop, the new window and the increment together leave exactly the map, and give exactly the verdict, of `Admit` on the old map and this call's clock reading; the loop may visit the entries in any order |
| Limiter.Limiter.Reset | internal/admin/ratelimit.go:65-69 | forgets that key and touches no other |
| Limiter.OpeningsApart | internal/admin/ratelimit.go:40-61 | over every interleaving in which no call waits longer than d between clock and mutex, two windows of one key with no reset between them open at least window - d apart in lock time |
| Limiter.AdmissionBound | internal/admin/ratelimit.go:40-69 | from any state and over every such interleaving, a key is admitted in any stretch of lock time of length T > 0 with r resets at most limit * (1 + ceil(T / (window - d)) + r) times |
| Limiter.SlotsIsCeiling | internal/admin/ratelimit.go:49 | the count of openings used in that bound is T / (window - d) rounded up |
| Limiter.SweepUnobservableIff | internal/admin/ratelimit.go:40-69 | from an empty limiter and over every interleaving, windows open for a key exactly as on a counter that sees this key's own calls and resets and nothing else, if and only if the log of keys and clock readings never crosses: no own reading inside its window enters after another key's reading past that window's end; then every answer agrees too, a first crossing of a used-up window gives another answer, and with a limit of one the answers agree if and only if nothing crosses |
| Limiter.PerKeyRefinement | internal/admin/ratelimit.go:46-60 | as a corollary, when the mutex is entered in clock order, as atomic calls do, other keys and the sweep cannot be observed in any answer |
| Limiter.MapHoldsOnlyRecentKeys | internal/admin/ratelimit.go:46-52 | after every attempt of every interleaving, the map holds only keys that attempted within the last window before its clock reading, so no more entries than such keys |
| Limiter.RefusalEnds | internal/admin/ratelimit.go:54-60 | refusals never move a window, so when the mutex is entered in clock order a key that keeps trying is admitted at its first attempt at or after start + window |
| Login.Handler.Login | internal/admin/auth.go:70-105 | one login request: limiter first, then the hash, then the reset, with the windows and response `Answer` gives for the old windows |
| Login.AnswerOutcome | internal/admin/auth.go:80-104 | 429 if and only if the limiter refuses, 401 if and only if it admits and the password does not match or cannot be checked, a session of the configured length otherwise; only then is the address forgotten, and no other ever is |
| Login.UninterruptedIsAtomic | internal/admin/auth.go:70-105 | in the step system, a request with nothing in between leaves the state and response of the sequential handler |
| Login.LoginRunsTheLimiter | internal/admin/auth.go:80-102 | every run of login requests drives the limiter through one of its own runs, so the limiter's theorems apply |
| Login.EvaluationsAreAdmissions | internal/admin/auth.go:77-100 | over every run, argon2id evaluations for an address plus those admitted processes still owe equal its admissions, and an unusable hash is never evaluated |
| Login.ResetsAreLogins | internal/admin/auth.go:97-104 | the limiter is reset for an address exactly once per successful login of it |
| Login.ArgonBound | internal/admin/auth.go:70-105 | argon2id evaluations for an address let in during any stretch are bounded as the limiter's admissions are, with r the successful logins |
| Login.RefusalsHideThePassword | internal/admin/auth.go:80-87 | two runs that differ only in passwords of attempts that were never let in have equal responses, phases and limiter, over every interleaving |
| Migrations.Pending | internal/database/migrate.go:118-152 | the two loops and the sort compute the sorted labels of the migrations outside the recorded set, which is empty when the table is missing |
| Migrations.SortStringsSorts | internal/database/migrate.go:150 | the sort returns an ordered permutation of its input |
| Migrations.PendingIsComplement | internal/database/migrate.go:144-151 | for distinct fixed-width versions, in whatever order the migrations come, the answer is exactly the embedded complement of the applied set in the order of the version texts |
| Migrations.FirstDifference | internal/database/migrate.go:150 | the order sorted by puts the smaller code point at the first difference first, and a text before its extensions |
| Migrations.OrderOfNumbers | internal/database/migrate.go:150 | on digit strings of one width that order is the order of the numbers they spell |
| Migrations.PendingByNumber | internal/database/migrate.go:112-151 | so with versions that are numbers of one width, what is pending comes smallest number first, whatever order the migrations come in |
| Migrations.NonePendingIff | internal/database/migrate.go:78-88 | nothing is pending if and only if every embedded version is recorded |
| Rollback.PositionalIffPrefix | internal/database/migrate.go:70-76 | reversing by position picks the newest k applied versions, for every k from 1 to the number applied, if and only if the applied set is a prefix of the sorted list |
| Rollback.Database.Up | internal/database/migrate.go:53-65 | succeeds exactly when no missing migration is broken and then has applied all; otherwise it stops at the first broken one with all before it applied |
| Rollback.Database.ReverseNewest | internal/database/migrate.go:96-100 | on a full table, reversing by position removes exactly the newest `steps` versions |
| Rollback.Down | internal/database/migrate.go:77-101 | succeeds exactly when the schema is fully applied, and then leaves exactly all but the newest `steps`; otherwise changes nothing |
| Rollback.UpTwice | internal/database/migrate.go:53-65 | running the steps of an Up twice ends in the state of running them once, from any applied set |
| Rollback.UpAfterDown | internal/database/migrate.go:53-101 | running the steps of a Down of any number of versions on a full table and then those of an Up ends in the full table with the lock free |
| Rollback.UpLeavesNonePending | internal/database/migrate.go:53-65 | after the steps of an Up, what `Pending` lists is empty |
| Rollback.NonePendingIffApplied | internal/database/migrate.go:78-83 | the list `Down` looks at is empty if and only if every version of the sorted list is applied |
| Rollback.RunKeepsInvariant | internal/database/migrate.go:53-101 | every interleaving of Ups and Downs, failures included, keeps one holder at a time, every Down past its check over a prefix, and every running Down's remaining plan the newest applied versions |
| Rollback.RollbackIsSafe | internal/database/migrate.go:67-101 | from any subset and over every interleaving, the version a Down is about to reverse is applied and no later one of the list is; once the set has been full it stays a prefix of the list |
| Rollback.RollbackIsSafeByVersion | internal/database/migrate.go:67-76 | for a list in increasing order of the version texts, every other applied version comes before the one a Down is about to reverse |
| Rollback.RollbackIsSafeByNumber | internal/database/migrate.go:67-76 | for versions that are numbers of one width, every other applied version is a smaller number than the one a Down is about to reverse |
| Rollback.FailureFreesTheLock | internal/database/migrate.go:90-100 | in every reachable state the lock is held by a running process, and one that fails gives it up and leaves the applied set as it was |
| Rollback.FullAtLockIff | internal/database/migrate.go:77-100 | for every Down whose check passes in a reachable state and everything that runs before it gets the lock: the table is then full if and only if as many versions were applied as reversed in between, so whenever no other Down reversed any; the applied set is the prefix of that size and the Down reverses the newest of it |
| Rollback.DownAlone | internal/database/migrate.go:77-101 | in the step system a Down with no other process about ends with all but the newest k versions applied and the lock free |
| Rollback.UpAlone | internal/database/migrate.go:53-65 | in the step system an Up with no other process about ends with everything applied and the lock free |
| Text.SplitJoin | internal/admin/password.go:76 | splitting a join of pieces without the delimiter gives the pieces back |
| Text.JoinSplit | internal/admin/session.go:122 | joining a split gives the text back, and no piece holds the delimiter |
| Text.ParseOfPrint | internal/admin/session.go:126-133 | every 64-bit integer printed by %d parses back to itself, negative ones included |
| Text.ParseIntIff | internal/admin/session.go:126-133 | an integer is read from exactly the texts made of an optional sign, any zeros and its printed magnitude, if it fits in 64 bits; every other text is refused |
| Base64.RoundTrip | internal/admin/password.go:90-98 | decoding the unpadded encoding of any bytes gives them back, for either alphabet |
| Base64.DecodeIff | internal/admin/session.go:107-115 | decoding accepts exactly the texts over the alphabet, line breaks aside, that leave no single symbol over, and answers what encodes to that text up to the unused bits of its last symbol |
| Base64.EncodeAvoids | internal/admin/session.go:97-103 | encoded text holds no character outside the alphabet, so no delimiter |
| Session.OpenOfSign | internal/admin/session.go:95-140 | opening a signed session gives it back truncated to whole seconds precisely while the clock is before the truncated expiry, and nothing afterwards, for every MAC and all 64-bit times |
| Session.OpenIff | internal/admin/session.go:101-140 | any text whatever opens as a session if and only if it is two base64url parts around its first dot, the second the MAC of what the first decodes to, which is "1", and two 64-bit numerals in its three fields, and the clock is before the expiry they say |
| Session.ForgedIsRefused | internal/admin/session.go:116-120 | a cookie assembled from any payload and any signature opens only if the signature is the payload's MAC |
| Session.OneDeadline | internal/admin/session.go:102-140 | any cookie value whatever either never opens or carries one session with one deadline; once refused it stays refused as the clock goes on |
| Session.LifeOfCookie | internal/admin/session.go:51-54 | an issued cookie never outlives issue + ttl and never dies a full second before it |
| Password.ParseInvertsPrint | internal/admin/password.go:37-101 | parsing inverts printing for all 32-bit memory and time, 8-bit threads, any salt and any non-empty key |
| Password.ParseHashIff | internal/admin/password.go:73-101 | any text whatever parses as a hash if and only if it is nothing, "argon2id", a version piece that reads 19, a parameter piece that says its representable parameters, and base64 of its salt and of its key between dollar signs, and the key is not empty |
| Password.ScanParamsIff | internal/admin/password.go:86 | the parameter piece says exactly the numbers after its three literals, in range, blanks before a number and anything after the last allowed |
| Password.ScanVersionIff | internal/admin/password.go:82-83 | the version piece says exactly the signed 64-bit integer after its literal and any blanks, whatever follows |
| Password.VerifyIff | internal/admin/password.go:56-63 | a text that encodes no hash, one with an empty key among them, is reported as bad for every password; any other decides by argon2id under what it encodes |
| Password.PrintedForm | internal/admin/password.go:45-48 | the encoding is the six pieces in their order, written out around five dollar signs |
| Password.VerifyAgainstOwnParams | internal/admin/password.go:56-63 | a hash made with any parameters accepts the password it was made from, and answers for any other whether argon2id agrees on the two under the parameters in the hash; current creation parameters play no part |
| ListUrl.BuildListUrl | internal/view/view.go:148-160 | the builder with its changing separator writes the base and the joined parameters, omitting an empty query and a first page |
| ListUrl.UnescapeOfEscape | internal/view/view.go:153 | percent-encoding with + for a space is undone by decoding, for every byte string |
| ListUrl.ListUrlRoundTrip | internal/admin/lists.go:69-81 | reading the query and page out of a list URL gives back the ones it was built from, for every query and every page from 1 to the largest 64-bit integer |
| ListUrl.PageOfAnyUrl | internal/admin/lists.go:70-73 | from any URL at all the page is at least 1, and above 1 only as the number its query spells |
| ListUrl.PairIff | internal/admin/lists.go:70-75 | a part of any query gives a name a value exactly when it holds no semicolon and the two sides of its first equals sign decode to them |
| ListUrl.UnescapeIff | internal/admin/lists.go:70-75 | decoding fails exactly on a percent sign without two hexadecimal digits after it |
| Paging.ScreenStride | internal/content/store.go:66-78 | a screen's first row is 51 * (page - 1) rows down, because the page size asked for is one more than is shown |
| Paging.PaginateAt | internal/content/store.go:66-92 | every page of every listing holds exactly the rows from its offset on up to its size, a listing that names no page or size being the first page of fifty |
| Paging.LoadMoreShows | internal/admin/lists.go:74-89 | following load-more over n rows takes n / 51 + 1 pages and shows, in order, exactly the rows whose index mod 51 is not 50; complete if and only if n <= 50 |
| Paging.StrideOfFiftyShowsAll | internal/admin/lists.go:84-89 | pages 50 rows apart, fetched 51 at a time and trimmed the same way, would show every row once and in order |
| ListScreen.FollowShows | internal/view/posts.templ:37-38 | the same exact result when every page is asked for by the URL of the button before it and its query and number are read back out of that URL, for every query |
| Search.LikeEscaped | internal/content/store.go:125-128 | escaped text in front of any pattern matches that text literally and then the rest, whatever wildcards or escapes it holds |
| Search.LikeIsContains | internal/content/store.go:119-127 | LIKE on the wrapped, escaped text matches exactly the strings that contain the text |
| Search.SearchIsSubstring | internal/content/store.go:113-122 | the clause finds exactly the rows whose title or slug contains the trimmed text up to a character-wise case fold, leaving it out for blank text agrees, and the pattern never ends in a dangling escape |
| Search.TrimmedText | internal/content/store.go:114 | white space is taken off both ends, all of it, and from nowhere else |
| Slug.SlugLanguage | internal/database/migrations/20260905080000_create_posts.up.sql:12 | the pattern accepts exactly the texts whose hyphen-separated pieces are all words, and such a text is the join of its pieces |
| Slug.WordsOfSlug | internal/database/migrations/20260905080000_create_posts.up.sql:12 | joining any words gives a slug that splits back into them |
| Store.WrittenIffValid | internal/database/migrations/20260905080000_create_posts.up.sql:12-16 | on a valid table a write is accepted if and only if the table with the row in it is valid: slugs well formed and unique, titles not blank |
| Store.RefusalSays | internal/content/errors.go:66-73 | slug invalid exactly when the pattern does not match, title required exactly for spaces alone under a matching slug, slug taken exactly when another row has it and nothing else is wrong, and stored otherwise |
| Store.BlankTitles | internal/database/migrations/20260905080000_create_posts.up.sql:13 | a title of white space alone, with a well-formed slug, is refused as missing if and only if every character of it is a space, and stored if and only if the slug is free and some character is not |
| Store.TabTitleIsStored | internal/content/errors.go:30-31 | a title of one tab, under any free and well-formed slug, is stored |
| Store.Store.ById | internal/content/store.go:135-142 | the row with this ID if there is one and the audience may see it, and otherwise not found |
| Store.Store.Create | internal/content/store.go:164-170 | stores the row or reports which constraint it breaks and changes nothing |
| Store.Store.Update | internal/content/store.go:172-178 | replaces an existing row or reports why not and changes nothing |
| Calendar.DaysRoundTrip | internal/admin/writing.go:338 | every day number is a date that exists and that counts back to it |
| Calendar.DateRoundTrip | internal/admin/writing.go:319 | every date is found again from its day number, so no two dates share one |
| Calendar.DaysOfDateClosed | internal/admin/writing.go:319 | the day number of every date is the Gregorian closed form, with no table of month lengths |
| Calendar.ParseOfPrintCivil | internal/admin/writing.go:315-339 | printed date fields parse back to the same date and time, for years 0 to 9999 |
| Calendar.PrintOfParseCivil | internal/admin/writing.go:315-339 | an accepted field typed with a two-digit hour is shown again as typed |
| Calendar.ParseCivilIff | internal/admin/writing.go:319-322 | the field is read from exactly the printed texts of existing dates and times, the hour with or without its leading zero; every other text is refused |
| Calendar.ParsedInstant | internal/admin/writing.go:319-323 | the instant of an accepted field is the closed form of its date, hour, minute and the zone's offset |
| Calendar.EditRoundTrip | internal/admin/writing.go:315-339 | formatting a stored date in a fixed-offset zone and parsing it back gives the start of its minute there |
| Calendar.TruncatedIsClose | internal/admin/writing.go:301-339 | that moves a date back by less than 60 seconds and never forward, and doing it twice is doing it once |
| Calendar.ParsedIsAligned | internal/admin/writing.go:315-324 | every accepted field is the start of a minute that the field can show |
| Editor.Handler.Update | internal/admin/writing.go:62-72 | the stored row takes the new slug, title and body, and the new date only if asked; a refusal changes nothing |
| Editor.Handler.Save | internal/admin/writing.go:149-197 | the whole explicit save, with the table and response of `SaveAs` on the old table |
| Editor.Handler.Autosave | internal/admin/writing.go:210-240 | the whole autosave, with the table and response of `AutosaveOf` on the old table |
| Editor.SaveOutcome | internal/admin/writing.go:149-197 | a save succeeds if and only if its date can be read, its ID names what it should and the table would be valid with the row; every other answer leaves all rows unchanged; a form that comes back holds what was typed, except the date filled in by publishing now; and when the answer is not-found or a failure |
| Editor.UnreadableDateIsRefused | internal/admin/writing.go:155-160 | a date field that is not empty and names no existing date stores nothing, publishing now or not, and comes back as typed against that field |
| Editor.StoredDate | internal/admin/writing.go:164-168 | the date an accepted save stores is the clock's when publishing now, otherwise exactly what the field says, and none only for an empty field |
| Editor.SaveRefusal | internal/admin/writing.go:176-180 | which of the three fields a refusal is shown against, and that the form goes on autosaving exactly when its readable date is not public yet |
| Editor.AutosaveOutcome | internal/admin/writing.go:210-240 | an autosave succeeds if and only if the row exists, is not public and the table would be valid with the typed text under the stored date; every other answer leaves all rows unchanged |
| Editor.AutosaveRefusal | internal/admin/writing.go:230-237 | which field a refused autosave names, and that the schema never makes it fail otherwise |
| Editor.StepWrites | internal/admin/writing.go:149-240 | every request writes its own row or nothing |
| Editor.StepStores | internal/admin/writing.go:149-240 | on a valid table, exactly the table each step of a run leaves: what the save or autosave asks for if that is valid and allowed, or the one it found |
| Editor.OnlySavesPublishOrChange | internal/admin/writing.go:210-240 | over every run with no explicit save of a row, its date is kept, so a Draft never becomes public whatever is typed, and once it is public its slug, title and body are kept too |
| Editor.TablesStayValid | internal/database/migrations/20260905080000_create_posts.up.sql:12-16 | every reachable table keeps unique, well-formed slugs and non-blank titles |
| Editor.DatesStayKept | internal/admin/writing.go:164-168 | over every run, a date still to come is the start of a minute of the zone, and every stored date can be shown in the field |
| Editor.UnchangedSaveKeepsState | internal/admin/writing.go:149-197 | after every run from an empty table, saving a form just as shown is accepted, keeps slug, title and body, moves the date back by less than a minute and keeps draft, scheduled or published |
| Autosave.HarmIff | internal/admin/writing.go:62-72 | at store-call granularity and whatever runs in between, the write alters the stored date if and only if it is accepted and the last accepted write of the row since the second read carried another date; it changes a row the public can see if and only if it is accepted, asks for something else than it finds, and the row is public through an accepted write since the load or, without one, because its date has arrived |
| Autosave.CourseEnds | internal/admin/writing.go:210-240 | an autosave that reaches its second read reaches its write, finds there what the last accepted write left, and stores the typed text under the date it read, or nothing if the schema refuses |
| Autosave.UndisturbedAutosaveIsSafe | internal/admin/writing.go:210-240 | so an autosave keeps the stored date, and changes a row the public can see, only in runs where another accepted write to the row or the arrival of its scheduled date falls between its load and its write |
| Autosave.UninterruptedIsAtomic | internal/admin/writing.go:210-240 | the store calls with nothing in between do to the table what the atomic request does |
| Autosave.SaveIsAtomic | internal/admin/writing.go:149-174 | the one step of an explicit save does to the table what the atomic save does |
| Limiter.CrossedReadsExposeTheSweep | internal/admin/ratelimit.go:41-52 | instance: without that order a reachable run gives an answer the counter on its own would not give |
| Rollback.RollbackMayRunWhilePending | internal/database/migrate.go:78-100 | instance: a reachable run of FullAtLockIff in which a Down holds the lock and rolls back while a migration is pending |
| Login.NextStaysInAdmin | internal/admin/auth.go:128-136 | anchor: whatever is asked for, the redirect goes to a path that starts with /admin and not with // |
| Login.NextIsKeptIff | internal/admin/auth.go:128-136 | anchor: a path inside Admin that parses is kept as it is, everything else goes to the posts |
| Migrations.BothPending | internal/database/migrate.go:145-150 | anchor: the two migrations of the repository are listed posts first |
| Text.DecimalVectors | internal/admin/session.go:96 | anchor: a few numbers and their texts |
| Password.PrintedExample | internal/admin/password.go:45-48 | anchor: one encoding, piece by piece |
| ListUrl.EscapeExample | internal/view/view.go:153 | anchor: one query, character by character |
| Search.LikeExamples | internal/content/store.go:119-121 | anchor: what a percent sign, an underscore and the escape stand for in a pattern |
| Slug.WordCharacters | internal/database/migrations/20260905080000_create_posts.up.sql:12 | anchor: the class of the pattern, by code |
| Base64.TestVectors | internal/admin/password.go:45 | anchor: published vectors of section 10 of RFC 4648, without padding |
| Base64.AlphabetVectors | internal/admin/session.go:97 | anchor: values 62 and 63 are + and / in the standard alphabet, - and _ in the URL one |
| Calendar.EpochDate | internal/admin/writing.go:319 | anchor: the first minute of 1970 in UTC is instant 0 |
| Calendar.EpochInZone | internal/admin/writing.go:319 | anchor: two hours east of UTC, two in the morning of the first day of 1970 is instant 0 |
| Calendar.LeapDay | internal/admin/writing.go:319 | anchor: the last minute of 29 February 2000 is accepted and is the instant it should be |
| Calendar.NoLeapDay | internal/admin/writing.go:320-322 | anchor: 29 February 1900 is refused |
| Editor.PublicationAgrees | internal/admin/writing.go:222 | anchor: autosave's test, the form's autosave flag, the list screens' word, `IsPublished` and the public filter agree on every row at every time |
| Autosave.SaveBeforeWriteLosesItsDate | internal/admin/writing.go:67-71 | instance: a publishing save between the second read and the write is undone |
| Autosave.SaveBeforeReadIsOverwritten | internal/admin/writing.go:63-67 | instance: a publishing save between the load and the second read has its text replaced in front of the public |
| Autosave.ArrivalDoesNotStopTheWrite | internal/admin/writing.go:222-231 | instance: a scheduled date that arrives after the test does not stop the write |

## Left out

- HTTP, cookies as headers, `rejectUnauthenticated` and `returnPath`, rendering, logging, configuration and the command line: a request is a datatype of the fields the handlers read, a response its status or marker and the values it carries.
- pop, pgx and PostgreSQL: a table is a map with the schema's constraints, a page is a slice of an ordered list, and rolling back at least one step (`internal/cli/migrate.go:53-55`) is positional as `internal/database/migrate.go:70-76` describes it. Row order, `created_at` and `updated_at` are not modelled.
- HMAC, argon2id, the random salt and constant-time comparison: uninterpreted functions and parameters. That argon2id panics on zero time or threads is not modelled.
- Limiter.Limiter.Allow: counts and durations are unbounded, so neither a wrapped counter nor a saturated difference of times is modelled. The limit is at least 1 and the window positive, as `internal/config/config.go:153-164` demands.
- Limiter.SweepUnobservableIff: the answers after a first crossing that finds room in the window are not described, except for a limit of one; both counters admit that call and then hold different windows.
- Login.Handler.Login: that `url.ParseRequestURI` accepts a path is a parameter, and the signed cookie is the session it carries.
- Migrations.PendingIsComplement: is for versions of one width; a database shared with another set of migrations, or holding unknown versions, is outside the protocol.
- Session.OpenOfSign: `time.Time` wraps for seconds near the ends of 64 bits; the model compares true instants.
- Password.ParseInvertsPrint: of the blanks Sscanf skips before a number only the ASCII ones are modelled, which no printed hash holds.
- ListUrl.ListUrlRoundTrip: the base holds no question mark, as no list path does; the page after the largest integer is not modelled.
- Search.SearchIsSubstring: the case fold is any character-wise one that keeps the three special characters to themselves; folds that change a string's length, and bytes that are not UTF-8, are not modelled.
- Store.Store.Create: the new ID is a parameter; NUL characters, which PostgreSQL refuses, are not. When several constraints fail, the one reported follows the order in which PostgreSQL tries them, the checks by name and then the index.
- Calendar.EditRoundTrip: is for fixed offsets and local years 0 to 9999; zones with daylight saving have local times with two instants.
- Editor.Handler.Save: two clock readings of one request are one, malformed form bodies are left out, and so are errors of the database other than the schema's.
- Autosave.HarmIff: an explicit save is one step, because it writes every column of the model and what its own read returned does not reach them.
- `pickFragment`, `FindPosts` ordering, the feed and the public pages: easy members.
