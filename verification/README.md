# fundbase user store, authentication and daily check-in, in Dafny

The mock banking front-end keeps every account as one record in a flat list
(`app_users_v3`) plus a session pointer holding the logged-in account's id
(`app_current_user_v3`). This project models that store and the handlers that
change it, as pure functions over an immutable state:

- `wrappers.dfy` (`Wrappers`): `Option` (JavaScript `null`) and `Result` (a handler's refusal).
- `text.dfy` (`Text`): ASCII case mapping for `toLowerCase`/`toUpperCase`, `trim` over the
  ECMAScript whitespace and line-terminator set, `slice(-n)`, and the referral code.
- `user_store.dfy` (`UserStore`): the `User` record, `findIndex`, `findUserByEmail`,
  `findUserById`, `persistUser` (the only write), and the id/e-mail uniqueness invariants.
- `auth.dfy` (`Auth`): the persisted `State` (records plus session pointer), signup,
  login, logout and session resolution (`requireAuthOrRedirect`).
- `dashboard.dfy` (`Dashboard`): the once-per-day check-in on a record, the check-in
  click handler as written, a corrected check-in, and Buy Pay-ID.

The generated id (`genId`), the device date (`todayISO`) and the creation timestamp
(`new Date()`) are parameters of the operations that use them.

Behaviours of script.js that the model keeps:

- Check-in is refused when today equals `lastCheckIn` and also when today is already in `checkedDates`.
- A session pointer holding the empty string is falsy in JavaScript. It reads as "nobody logged in" and is NOT cleared. Only a non-empty pointer to a missing record is cleared.
- Signup never checks that the generated id is unused. When it collides, `persistUser` replaces the first record with that id. `Signup` states both cases.
- Signup and login refuse blank fields before any lookup. Names and e-mails are trimmed; passwords are not.
- `checkedDates` is an ordered list that may in principle hold duplicates. Freedom from duplicates is an invariant proved to be preserved, not a property of the type.

## Model

| member | source | states |
|---|---|---|
| Text.Lower | script.js:34 | lower-casing keeps the length, leaves no upper-case ASCII letter and keeps every other character (the letter mapping itself is Text.LowerMapsCapitals) |
| Text.Upper | script.js:81 | upper-casing keeps the length, leaves no lower-case ASCII letter and keeps every other character (the letter mapping itself is Text.UpperMapsSmallLetters) |
| Text.LowerMapsCapitals | script.js:34 | each upper-case ASCII letter becomes its own lower-case letter |
| Text.UpperMapsSmallLetters | script.js:81 | each lower-case ASCII letter becomes its own capital |
| Text.LowerEqualIffEqualIgnoringCase | script.js:34 | two addresses compare equal after lower-casing exactly when they have the same length and agree character by character up to ASCII case |
| Text.LowerIdempotent | script.js:34 | lower-casing an already lower-cased address changes nothing |
| Text.Trim | script.js:55-56 | the trimmed value is a contiguous slice of the field with only whitespace cut off on either side, has no whitespace at either end, and is empty exactly when the field is blank |
| Text.TrimStart | script.js:55 | trimming the front removes only whitespace, and leaves a suffix of the input that starts with a non-whitespace character |
| Text.TrimEnd | script.js:55 | trimming the back removes only whitespace, and leaves a prefix of the input that ends with a non-whitespace character |
| Text.TrimIdempotent | script.js:55-56 | a trimmed name or e-mail is a fixed point of trimming: trimming twice equals trimming once |
| Text.SliceLast | script.js:81 | `slice(-6)` yields the last min(6, length) characters, in order |
| Text.ReferralCode | script.js:81 | the code is `REF-` followed by the id's last (up to) six characters upper-cased, with no lower-case ASCII letter after the prefix |
| Text.ReferralCodeExample | script.js:81 | a generated-style id `u3k9x2ab` gives `REF-K9X2AB`; an id shorter than six characters is used whole |
| UserStore.FindIndex | script.js:42 | `findIndex` returns nothing iff no element satisfies the predicate, else the position of the first that does |
| UserStore.IndexOfId | script.js:42 | position of the first record with exactly the id; nothing iff no record has it |
| UserStore.IndexOfEmail | script.js:34 | position of the first record with a non-empty e-mail equal up to case; nothing iff none |
| UserStore.FindByEmail | script.js:31-35 | nothing for an empty query; otherwise the first record whose non-empty e-mail equals the query case-insensitively, and nothing only when no record matches |
| UserStore.FindById | script.js:36-39 | nothing for an empty id; otherwise the first record with exactly that id, and nothing only when no record has it |
| UserStore.Persist | script.js:40-46 | a new id is appended: length grows by one and every earlier record is kept; an existing id replaces its first record: length unchanged and every other position kept |
| UserStore.PersistThenFindById | script.js:36-46 | after writing a record with a non-empty id, looking up that id finds exactly the written record |
| UserStore.PersistKeepsOtherIds | script.js:36-46 | a write does not change what a lookup of any other id finds |
| UserStore.PersistKeepsIdsUnique | script.js:40-46 | a write keeps the ids of the store pairwise distinct |
| UserStore.PersistSameEmailKeepsEmailsUnique | script.js:40-46 | rewriting an existing record without changing its e-mail keeps e-mails unique up to case |
| Auth.Signup | script.js:55-85 | refused as MissingFields iff name or e-mail is blank or the password empty; as DuplicateEmail iff fields are filled and some record matches the trimmed e-mail case-insensitively; on success the session is the new id and the record at that id has balance 30000, no last check-in, an empty history, the derived referral code, no Pay-ID, with every other record kept |
| Auth.SignupKeepsEmailsUnique | script.js:64-84 | signup never makes two records share an e-mail up to case, even when the generated id collides |
| Auth.SignupThenFindByEmail | script.js:64-84 | after signup, looking up the e-mail in any letter case finds the new account |
| Auth.SignupThenResolve | script.js:84-85 | after signup with a non-empty id, resolving the session yields the new account |
| Auth.Login | script.js:97-112 | refused as MissingFields iff the e-mail is blank or the password empty; succeeds iff the e-mail lookup finds a record whose password equals the input exactly; success only moves the session to that record's id and leaves the records alone |
| Auth.LoginIffCredentialsMatch | script.js:105-112 | with unique e-mails, login with an address matching record k succeeds iff k's password equals the input, and then logs in k |
| Auth.LoginUnknownEmail | script.js:105-108 | an e-mail no record matches is refused as InvalidCredentials |
| Auth.Logout | script.js:378 | logout clears the session pointer and keeps every record |
| Auth.LogoutKeepsRecords | script.js:25 | after logout nobody resolves as logged in, yet a lookup of any id finds what it found before |
| Auth.CurrentIndex | script.js:119-128 | the logged-in record is the first record with the pointer's id, present only for a non-empty pointer some record carries |
| Auth.ResolveSession | script.js:118-135 | an unset or empty pointer yields nobody and changes nothing; a non-empty pointer to a missing id is cleared and yields nobody; otherwise the pointed record is returned and nothing changes; records never change |
| Auth.ResolveSessionHeals | script.js:127-134 | after resolution the pointer is unset, empty or names an existing record, and resolving again is a no-op |
| Dashboard.CheckInRecord | script.js:288-297 | refused as AlreadyCheckedIn iff today is the last check-in or already recorded; otherwise today becomes the last check-in and is appended to the history, and every other field (balance included) is kept |
| Dashboard.CheckInIdempotent | script.js:288-297 | on any record, a second check-in the same day is refused and the day occurs exactly once |
| Dashboard.CheckInKeepsHistoryWellFormed | script.js:295-297 | a check-in keeps the history duplicate-free with the last check-in equal to its latest day |
| Dashboard.CheckInRefusedIffRecorded | script.js:289 | on a well-formed history, check-in is refused exactly when the day is already recorded |
| Dashboard.CheckInTwoDays | script.js:288-297 | check-ins on two different new days append both, in order |
| Dashboard.CheckInDaysHistory | script.js:285-298 | over any run of daily clicks the history keeps its earlier days in place, ends up holding every clicked day and nothing else new, never records a day twice, and every other field (balance included) is kept |
| Dashboard.CheckInClick | script.js:270-298 | the click handler updates the page-load record object and writes it back, after which a lookup of its id finds that object and a lookup of any other id finds what it found before; a refusal changes nothing |
| Dashboard.CheckInClickLosesPayId | script.js:257-298 | a Pay-ID bought after the dashboard loaded is lost by the next check-in click |
| Dashboard.CheckIn | script.js:288-298 | corrected check-in: RecordNotFound iff the id is empty or absent; AlreadyCheckedIn iff the stored record refuses; otherwise only that record's last check-in and history change |
| Dashboard.BuyPayIdThenCheckInKeepsPayId | script.js:257-263 | with the corrected check-in, a bought Pay-ID survives the next check-in |
| Dashboard.CheckInStoreIdempotent | script.js:289-293 | repeating the corrected check-in the same day is refused |
| Dashboard.CheckInKeepsHistoriesWellFormed | script.js:294-298 | the corrected check-in keeps every history in the store duplicate-free and consistent |
| Dashboard.BuyPayId | script.js:257-264 | sets `hasPayId` on the logged-in record only; session, length and every other record kept; nothing changes with no session or a dangling one |
| Dashboard.BuyPayIdIdempotent | script.js:257-264 | buying a Pay-ID twice equals buying it once |
| Dashboard.BuyPayIdKeepsHistoriesWellFormed | script.js:257-264 | Buy Pay-ID keeps every check-in history well formed |
| Dashboard.SignupKeepsHistoriesWellFormed | script.js:79-84 | signup keeps every check-in history well formed |
| Dashboard.UpdatesKeepStoreUnique | script.js:257-298 | Buy Pay-ID and the corrected check-in keep ids and e-mails unique |
| Dashboard.SignupOnEmptyStore | script.js:59-85 | signup on an empty store with filled fields stores exactly the one new account and logs it in |
| Dashboard.CheckInScenario | script.js:288-298 | a fresh account checks in on 2024-01-01, is refused on a retry, and after 2024-01-02 holds both days in order |

## Findings

| source | as written | input that shows it | evidently intended | confidence | as-written member | corrected member |
|---|---|---|---|---|---|---|
| script.js:270-298 | the check-in click updates and persists the record object captured when the dashboard was populated, overwriting the stored record | account `u1` loaded on the dashboard, then Buy Pay-ID clicked (stored `hasPayId` becomes true), then check-in clicked: the stored record has `hasPayId` false again | a check-in changes only `lastCheckIn` and `checkedDates` of the stored record, as Buy Pay-ID re-reads the record by id at click time | medium, not executed; it needs both buttons on one page, since the page markup is not part of this model | Dashboard.CheckInClickLosesPayId | Dashboard.CheckIn |

## Left out

- Persistence (`localStorage`, `JSON.parse`/`stringify`, the parse-failure fallback to an empty list, script.js:18-25): the store is an in-memory value.
- Records read from storage with missing fields: every record has every field. A missing e-mail is the empty string and a missing `hasPayId` is `false`. The `Array.isArray` fallback for `checkedDates` (script.js:296) therefore never applies.
- `genId` randomness, `todayISO` and `new Date()` (script.js:26-27, 78): nondeterministic; they are parameters.
- Text.Lower: maps ASCII letters only, whereas `toLowerCase` applies full Unicode case mapping; non-ASCII addresses compare by exact code point here.
- Text.Upper: maps ASCII letters only; ids from `genId` are ASCII base-36, so the referral code is unaffected.
- `formatNaira` (script.js:28): locale-dependent display formatting.
- DOM lookups, alerts, status texts, redirects, the delayed redirect and the bootstrapping (script.js:49-57, 87, 92-98, 113, 138-170, 351-388): presentation only.
- `renderCalendar` (script.js:307-348): DOM output and time-zone-dependent date arithmetic.
- Withdraw, message-send and referral-copy handlers (script.js:173-247): they only show alerts and change no state.
- The "+1000 after daily check-in" reward mentioned in a comment (script.js:77): it is not implemented, so it is not modelled.
- Concurrency between tabs: the system is single-tab and synchronous. Each operation is one atomic transition.
