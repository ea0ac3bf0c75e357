# Job Application Tracker — detection and registration rules in Dafny

This project models the logic at the heart of the Job Application Tracker.
That logic lives in four places:

- **The browser extension's content script.** It decides whether the open page shows one job posting. It pulls the job title, company and location out of the page, keeps the result in a cache refreshed by a debounced timer, and polls that cache when the popup asks for it.
- **The extension popup.** It merges the detected values into its form, reports how much was found, retries while the content script is not yet listening, and turns a failed save into a message. On a 401 whose error message it can build it signs out; after a successful save it resets the form.
- **The dashboard's registration form.** It validates its input before calling the server.
- **The server's registration endpoint.** It validates again and creates the user.

Strings are `seq<char>`. A page is an abstract value: each query scope maps a CSS selector to "no element", "an element with this text" or "the selector throws". The few `<meta>` values read are optional strings. Time is a natural-number clock in milliseconds. Every operation is a pure function, except the poll, which is a method with a loop.

| file | module | models |
|---|---|---|
| text.dfy | Text | JavaScript white space, `trim`, `replace(/\s+/g, ' ')`, `includes`, ASCII case folding, `split`/`join`, decimal rendering, UTF-16 `length` |
| dom.dfy | Dom | the abstract page |
| location.dfy | Location | `extractLocationFromText` |
| classifier.dfy | Classifier | `isJobDetailPage` |
| extractors.dfy | Extractors | `getCleanText`, `trySelectors`, the LinkedIn, Indeed and generic extractors with the `og:title` and site-name fallbacks |
| detector.dfy | Detector | `detectJobInfoOnce`, `scheduleDetect`, `waitForJobInfo`, the `getJobInfo` handler |
| popup.dfy | Popup | the popup's `fetchJobInfo` and `handleSubmit` |
| register_form.dfy | RegisterForm | the dashboard's `handleSubmit` on the registration page |
| auth_views.dfy | AuthViews | `register_user` |
| registration.dfy | Registration | the form against the endpoint |

Three details of extension/content.js that the model keeps as written:

- **Employment tags.** The tag pattern is `On[- ]site`. It removes `On-site` and `On site`, but not `Onsite`.
- **`og:title` segments.** These are trimmed, but their inner white space is not collapsed. Only text read through `getCleanText` is collapsed.
- **The 60-character cut-off.** `cleaned.length` counts UTF-16 code units, so the model compares the UTF-16 length, not the number of characters.

The tag and keyword patterns carry the `i` flag without `u`. Under that flag, case folding never maps a non-ASCII character onto an ASCII letter, so the model folds ASCII letters only.

## Model

| member | source | states |
|---|---|---|
| Text.Clean | extension/content.js:22-23 | The cleaned text is the input's words, in order, joined by single plain spaces. It is clean, keeps every non-white-space character of the input in order, and is empty exactly when the input is all white space. |
| Text.WordsAreWords | extension/content.js:23 | Every word of a text is non-empty and holds no white space. |
| Text.CleanIgnoresTrailingSpace | extension/content.js:23 | White space after clean text is dropped by cleaning. |
| Text.CleanFixpoint | extension/content.js:23 | Cleaning text that is already clean returns it unchanged. |
| Text.Trim | extension/content.js:23 | `trim` leaves no white space at either end, drops no other character and adds none. Trimmed text is returned unchanged. |
| Text.TrimSlice | extension/content.js:23 | The trimmed text is one slice of the input, and only white space lies before and after that slice. |
| Text.TrimSliceFrom | extension/content.js:273 | The same for the text from a given position on. |
| Text.TrimIsInfix | extension/content.js:58 | Trimming a piece of a string gives a narrower piece of the same string. |
| Text.SplitRoundTrip | extension/content.js:240 | Interleaving the pieces of `split` with the separators it consumed rebuilds the input, and there is exactly one more piece than separators. |
| Text.SplitWithout | extension/content.js:240 | Text without separators splits into itself alone. |
| Text.SplitAtFirst | extension/content.js:240 | The first piece runs up to the first separator; the rest is split on its own. |
| Text.NatToStringRoundTrip | extension/src/popup/App.jsx:199 | The decimal rendering of a status code denotes that code. |
| Text.Utf16Length | dashboard/src/Register.jsx:36 | JavaScript's `length` lies between the number of characters and twice that number. It equals the number of characters when every character is in the Basic Multilingual Plane. |
| Text.Utf16LengthAppend | dashboard/src/Register.jsx:36 | `length` adds up over concatenation. One character counts 2 above U+FFFF and 1 otherwise. |
| Extractors.SelectorText | extension/content.js:20-24 | No element, or a selector that throws, gives `''`. An element gives clean text with the same non-white-space characters as its `textContent`, or as its `innerText` when `textContent` is empty. |
| Extractors.TrySelectors | extension/content.js:27-40 | The result is clean. It is `''` exactly when no selector yields text. Otherwise it is the text of the first selector, in list order, that yields text. |
| Extractors.FirstNonEmptyUnique | extension/content.js:27-40 | The first-text property determines the result completely. |
| Extractors.TrySelectorsAppend | extension/content.js:27-40 | Trying a concatenated list tries the second part only when the first part yields nothing. |
| Extractors.DetectLinkedIn | extension/content.js:124-166 | Title and company are the first texts of their selector lists over the document. The location is the normalised first location text. All fields are well formed. |
| Extractors.DetectIndeed | extension/content.js:169-204 | The same for Indeed's selector lists. |
| Extractors.TitleSegments | extension/content.js:240 | A string is a segment exactly when it is a non-empty trimmed piece of the split on `-–\|•·`. Each segment is non-empty and trimmed, and contains no separator. |
| Extractors.NonEmptyPositions | extension/content.js:240 | The listed positions lie inside the list, from the starting position on. |
| Extractors.NonEmptyPositionsExact | extension/content.js:240 | Exactly the positions of the non-empty entries are listed, each once, in increasing order. |
| Extractors.NonEmptyOnlyPositions | extension/content.js:240 | `filter(Boolean)` reads the list at exactly those positions, so order and repetitions are kept. |
| Extractors.TitleSegmentsInOrder | extension/content.js:240 | The segments are the trimmed pieces read at exactly the positions of the non-empty ones, in increasing order, so order and repetitions are kept. |
| Extractors.TitleSegmentsOfPair | extension/content.js:240 | A `role - company` value, with both parts non-empty, trimmed and free of separators, gives exactly the segments role and company, in that order. |
| Extractors.TitleSegmentsExample | extension/content.js:240 | `Senior Backend Engineer - Acme Corp` gives `Senior Backend Engineer` and `Acme Corp`. |
| Extractors.OgTitleExample | extension/content.js:240-248 | From that value the title is `Senior Backend Engineer`, the segment naming a job keyword. |
| Extractors.NonEmptyOnlyKeepsOrder | extension/content.js:240 | `filter(Boolean)` works piecewise: filtering a concatenation is concatenating the filtered parts. |
| Extractors.PickTitle | extension/content.js:241-248 | No segment gives `''` and one segment is used whole. With two or more, the result is the first segment that names a job keyword; if none does, it is the first segment. |
| Extractors.OgTitle | extension/content.js:236-250 | The title from `og:title` is trimmed and contains no separator. It is empty exactly when there are no segments, and otherwise it is one of the segments. |
| Extractors.SiteName | extension/content.js:273 | The result is trimmed. It keeps every non-white-space character after the leading `@`, if there is one, and of the whole value otherwise. |
| Extractors.SiteNameSlice | extension/content.js:273 | The result is one slice of the value after the optional leading `@`, with only white space around it. |
| Extractors.SiteNameDropsHandle | extension/content.js:273 | `@acme` and `acme` give the same company. |
| Extractors.GenericTitle | extension/content.js:221-250 | The selectors inside the main container win. `og:title` is consulted only when they yield nothing. |
| Extractors.GenericCompany | extension/content.js:253-275 | The selectors win. The site-name value (`og:site_name`, else `twitter:site`) is used only when they yield nothing. |
| Extractors.DetectGeneric | extension/content.js:207-296 | Every field is well formed. Each field is its pass's result. |
| Location.ReplaceMiddot | extension/content.js:48 | Every middle dot becomes a space, and nothing else changes. |
| Location.TagFrom | extension/content.js:49 | The first alternative, in written order, that matches at a position between word boundaries, ignoring ASCII case. None when no alternative matches. |
| Location.RemoveMatches | extension/content.js:49 | A global `replace` with `''` only shortens the text and introduces no character. |
| Location.RemoveCopies | extension/content.js:49 | Text in which no match starts is copied unchanged. |
| Location.RemoveAtMatch | extension/content.js:49 | The text before the first match is copied, the match is dropped, and the scan resumes right after it. |
| Location.StripTags | extension/content.js:49 | Removing tags only shortens the text and introduces no character. |
| Location.StripTagsNoTag | extension/content.js:49 | Text in which no tag starts comes through unchanged. |
| Location.StripTagsCopies | extension/content.js:49 | Text up to the first tag is copied unchanged. |
| Location.StripTagsAtTag | extension/content.js:49 | At the first tag, the tag is dropped and the scan resumes right after it. The tag is non-empty and lies inside the text. |
| Location.NoTagsBetween | extension/content.js:49 | No tag starts at a character that begins none of the alternatives, or inside a word. |
| Location.StripTagsExample | extension/content.js:47-51 | `Austin, TX · Remote · Full-time` cleans to `Austin, TX`. |
| Location.CleanedLocationFacts | extension/content.js:47-51 | The cleaned location text is clean and has no middle dot. |
| Location.RunEnd | extension/content.js:57 | A greedy character-class run stops exactly at the first character outside the class. |
| Location.FirstMatch | extension/content.js:57 | A reported match starts at or after the search position and ends, non-empty, inside the text. |
| Location.FirstMatchByLeftmost | extension/content.js:57 | A left-to-right search with any matcher reports the leftmost match and its end, or finds no position that matches. |
| Location.FirstMatchLeftmost | extension/content.js:57 | The match is leftmost: no earlier position matches, the match at the reported position ends where reported, and no result means no position matches. |
| Location.ExtractLocation | extension/content.js:43-59 | Empty text gives `''`. Every result is clean and has no middle dot. Cleaned text of at most 60 code units is returned as it is. Longer text gives the cleaned text or a piece of it, and the cleaned text itself when the pattern does not match. |
| Location.Shorten | extension/content.js:56-58 | The long branch returns the trimmed leftmost match, or the text itself when nothing matches. The result stays clean. |
| Classifier.FirstRule | extension/content.js:66-109 | The first site rule, in written order, that fires; none when no rule fires. |
| Classifier.IsJobDetailPage | extension/content.js:62-121 | A page is a detail page exactly when some site rule fires or both the heading and the apply control exist. |
| Classifier.LinkedInJobView | extension/content.js:67 | A `linkedin.com` host with `/jobs/view/` in the path is a detail page. |
| Classifier.GreenhouseNumericJob | extension/content.js:77 | A `greenhouse.io` host with `/jobs/` followed by a digit is a detail page. |
| Classifier.LeverJob | extension/content.js:82 | A `lever.co` host with `/jobs/` in the path is a detail page. |
| Classifier.WorkdayAnyPath | extension/content.js:87 | Any `myworkdayjobs.com` host is a detail page, whatever the path, because `&&` binds tighter than `\|\|`. |
| Classifier.NoRuleMeansFallback | extension/content.js:111-120 | When no site rule fires, the markup alone decides. |
| Classifier.LinkedInViewExample | extension/content.js:67 | `www.linkedin.com` `/jobs/view/12345` is a detail page. |
| Classifier.GreenhouseExample | extension/content.js:77 | `boards.greenhouse.io` `/jobs/987654` is a detail page. |
| Classifier.LinkedInSearchExample | extension/content.js:62-121 | `www.linkedin.com` `/jobs/search` fires no site rule. It is a detail page exactly when the heading and the apply control both exist. |
| Detector.DetectJobInfoOnce | extension/content.js:299-332 | Off a detail page the result is exactly all-empty. Otherwise LinkedIn's extractor runs on a `linkedin.com` host, Indeed's on an `indeed.` host, and the generic one elsewhere. Every field is a well-formed string. |
| Detector.LinkedInBeforeIndeed | extension/content.js:315-321 | LinkedIn is dispatched before Indeed. |
| Detector.LinkedInViewUsesLinkedIn | extension/content.js:304-316 | A LinkedIn job view gets LinkedIn's extractor, whatever the markup. |
| Detector.Schedule | extension/content.js:335-343 | Scheduling replaces any pending timer with one due `delay` from now, so at most one is ever pending. Nothing else changes. |
| Detector.Tick | extension/content.js:339-342 | A timer that comes due fires once, clears itself and caches the detection of that moment. Otherwise only the clock moves. |
| Detector.AdvanceQuiet | extension/content.js:339-342 | Before its due time a pending timer does nothing. |
| Detector.AdvanceFires | extension/content.js:339-342 | A timer due within the interval fires exactly once, at its due time. |
| Detector.CloseCallsDefer | extension/content.js:335-343 | Calls closer together than the delay never let a detection run. One timer stays pending, due `delay` after the last call. |
| Detector.BurstRunsOnce | extension/content.js:335-343 | A burst of calls closer together than the delay, followed by a quiet spell, runs detection exactly once, `delay` after the last call. |
| Detector.BurstSeesLastPage | extension/content.js:335-343 | That single run sees the page as it stands at that moment. |
| Detector.SpacedCallsEachRun | extension/content.js:335-343 | Calls at least the delay apart each get their own run. |
| Detector.WaitForJobInfo | extension/content.js:388-406 | The poll resolves at the first check that sees a title or a company, or that finds the wait used up, and returns what that check saw. Every earlier check saw neither, within the wait. At most `ceil(maxWait / interval) + 1` checks happen. |
| Detector.WaitForJobInfoDefaults | extension/content.js:388-406 | With the defaults of 1500 ms and 250 ms, the poll makes at most seven checks. A poll that finds nothing ends at the seventh check, 1500 ms in. Every check before the last saw neither a title nor a company. |
| Detector.RespondToPopup | extension/content.js:409-421 | When the immediate detection finds a title or a company, it is the reply after one check. A later reply is the cache at its check, and every check between the first and the reply's saw neither a title nor a company, within the wait, so the reply comes from the first check that finds one. An empty reply means the wait ran out. At most `ceil(maxWait / interval) + 1` checks happen. |
| Detector.PollAnswersFirstFind | extension/content.js:393-401 | When the immediate detection finds nothing and the cache one interval later has a title or a company, the reply is that value, at the second check. |
| Popup.MergeJobInfo | extension/src/popup/App.jsx:44-53 | Each detected field replaces the form's only when non-empty, and so does the tab's URL. Date, status and notes are untouched. |
| Popup.MergeNeverErases | extension/src/popup/App.jsx:47-53 | A filled field is never blanked by a merge. |
| Popup.MergeIdempotent | extension/src/popup/App.jsx:47-53 | Merging the same reply twice is merging it once. |
| Popup.MergeEmptyIsIdentity | extension/src/popup/App.jsx:47-53 | An empty reply without a URL leaves the form unchanged. |
| Popup.MessageTier | extension/src/popup/App.jsx:56-65 | Detected exactly when both title and company are non-empty. Partial exactly when one of them is. Undetected exactly when neither is. |
| Popup.TierIgnoresLocation | extension/src/popup/App.jsx:56-65 | The location plays no part in the tier. |
| Popup.TryGetJobInfo | extension/src/popup/App.jsx:26-42 | A request is resent only after `lastError` with attempts left, so at most attempts + 1 messages go out. An answer with `jobInfo` merges it. Any other final answer changes only the link. |
| Popup.FetchJobInfo | extension/src/popup/App.jsx:19-78 | Without an active tab nothing happens. Otherwise at most four messages are sent. When all four fail, only the link changes. |
| Popup.FetchKeepsUserFields | extension/src/popup/App.jsx:37-53 | Date, status and notes survive whatever the answers. |
| Popup.Lookup | extension/src/popup/App.jsx:192 | A key is found exactly when some entry has it. The value found is that of the first entry with the key. |
| Popup.BuildErrorMessage | extension/src/popup/App.jsx:191-202 | A truthy `non_field_errors` array gives its items joined with `', '`. A truthy non-array throws. Otherwise a non-empty body gives `field: errors` joined with `'; '`, which is never empty, and an empty body gives the HTTP fallback. |
| Popup.DetailIsOverwritten | extension/src/popup/App.jsx:191-199 | A body with only `detail` is shown as `detail: ...`, never as the bare value. |
| Popup.HandleSave | extension/src/popup/App.jsx:176-215 | A success resets the form to blank fields, status `Applied`, dated today. A 401 whose error message is built removes the four credential keys and no others, and signs out. Every other failure changes only the message. That includes a 401 whose `non_field_errors` is a truthy non-array: `.join` throws, and the throw is caught like an unreachable server before the 401 check. |
| Popup.Submit | extension/src/popup/App.jsx:157-215 | Without a token only the message changes, to a request to log in. With one, the save's outcome is handled. A save blanks the form and reports success. Any other outcome keeps the form. An unreachable server changes only the message. |
| Popup.RestoreReadsOnlyToken | extension/src/popup/App.jsx:82-86 | Whether the popup opens signed in depends on the stored access token alone. |
| Popup.RestoreAfterSave | extension/src/popup/App.jsx:82-86 | After a save, the popup reopens signed in exactly when it would have before and the save was not a 401 whose error message was built. No other outcome touches the stored token. |
| Popup.ThrowingBuilderIsUnreachable | extension/src/popup/App.jsx:193-214 | When `.join` throws on a string `non_field_errors`, the save is handled exactly as an unreachable server reporting that TypeError: only the message changes, even on a 401. |
| Popup.UnauthorizedSignsOut | extension/src/popup/App.jsx:205-210 | After a 401 the next submit asks for a login, and reopening the popup does not sign back in. |
| Popup.RejectionKeepsWork | extension/src/popup/App.jsx:187-211 | A rejection other than 401 keeps the form, the storage and the session. |
| RegisterForm.Check | dashboard/src/Register.jsx:30-50 | The checks run in the order required, then length, then match, and the first failing check picks the message. `register` is called exactly when all three pass, with username, password and email. The loading flag is cleared exactly on rejection. |
| RegisterForm.Validate | dashboard/src/Register.jsx:30-50 | As written, with the length in UTF-16 code units: `register` is called exactly when all three checks pass. |
| RegisterForm.ValidateCodePoints | dashboard/src/Register.jsx:30-50 | The same checks with the length in characters. |
| RegisterForm.RequiredComesFirst | dashboard/src/Register.jsx:30-34 | A missing field is reported first, whatever else is wrong. |
| RegisterForm.LengthBeforeMismatch | dashboard/src/Register.jsx:36-46 | A short password is reported before a mismatch. |
| RegisterForm.RejectionMessages | dashboard/src/Register.jsx:30-46 | Only the three messages appear, and each clears the loading flag. |
| RegisterForm.CountsAgreeOnBmp | dashboard/src/Register.jsx:36 | Within the Basic Multilingual Plane both counts decide alike. |
| RegisterForm.CodePointsStricter | dashboard/src/Register.jsx:36 | The form as written accepts everything the character count accepts. |
| RegisterForm.Finish | dashboard/src/Register.jsx:48-61 | Success leads to the login page with its notice. A failure shows the server's `error`, else its `detail`, else the error's message, else the generic text. The message shown is never empty. |
| AuthViews.RegisterUser | backend/applications/auth_views.py:25-69 | The checks run in the order required, then length (in characters), then uniqueness, each refusal a 400 that leaves the table unchanged. A valid request meeting a database error gets a 500 with its text, and only then does a 500 occur. Success is a 201 with the next id, and the table gains exactly that user. |
| AuthViews.RegisterKeepsValid | backend/applications/auth_views.py:44-62 | Ids stay distinct and below the next id. Success adds exactly the new name, and its id is new. Every other outcome leaves the table unchanged. |
| AuthViews.SecondRegistrationRefused | backend/applications/auth_views.py:44-48 | Registering a name a second time gives "Username already exists" and changes nothing. |
| AuthViews.StatusesAreExact | backend/applications/auth_views.py:31-69 | Only 201, 400 and 500 occur, and a 400 carries one of the three messages. |
| Registration.AcceptedFormPassesServerChecks | dashboard/src/Register.jsx:30-50 | A request from the form counting characters never fails the server's required or length check. With a free name and a working database it creates the user. |
| Registration.AcceptedBmpFormPassesServerChecks | dashboard/src/Register.jsx:36 | The form as written gives the same guarantee for passwords in the Basic Multilingual Plane. |
| Registration.AstralPasswordCounterexample | dashboard/src/Register.jsx:36 | Four emoji pass the form as written and fail the server's length check. |
| Registration.ServerErrorShownVerbatim | dashboard/src/Register.jsx:53-58 | A server refusal reaches the user as the server worded it. |

## Left out

- **Browser APIs.** The DOM, `MutationObserver`, `chrome.runtime`, `chrome.tabs`, `chrome.storage`, `setTimeout`, `Date.now` and `console` are replaced by the abstract page, explicit reply functions, a storage map and a natural-number clock.
- **CSS selector semantics.** Selector lists are opaque data in their authored order. The container (`main`, else `[role="main"]`, else `#content`, else `body`) is a given scope of the page.
- **Throwing fallback selectors.** The heading and apply selectors of `isJobDetailPage` are well formed. A `Throws` outcome for them is read as "no element".
- **`setupObservers`.** Its wiring (extension/content.js:346-383) is not modelled. Its URL observer calls `scheduleDetect(700)` only when `location.href` differs from the last URL seen. Its DOM observer and the initial load call `scheduleDetect(800)`. Only `scheduleDetect` itself is modelled.
- **Other message actions.** The handler answers only `getJobInfo`. It returns `false` for any other action, and that branch is not modelled.
- **Transient messages.** "Detecting job information..." and the 3-second timers that clear the popup's message are not modelled.
- **Login, logout and form editing.** `handleLogin` (token decoding), `handleLogout`, `handleChange` and all rendering are left out. The dashboard's other pages, its auth helpers, the REST views, serializers and models are not part of this model either.
- **Unusual JSON error bodies.** Error-body values other than strings, arrays of strings and `null`, and bodies that are not objects, are not modelled. An unparsable body is the empty object, as the `catch(() => ({}))` makes it.
- **The email.** `register_user` stores it and the model ignores it. Password hashing and logging are left out too. The only exception modelled is the one raised when the user is created.
- Detector.WaitForJobInfo: requires `interval > 0`, and each check happens exactly `interval` after the previous one. Real timers fire later, and with a zero interval real time still passes between checks. A discrete clock that advanced by nothing would never end the poll.
- Detector.Tick: a detection takes no time, and the page it reads is the one standing at the moment the timer fires. A timer fires exactly at its due time, never later, so a call arriving exactly `delay` after the previous one finds that timer already fired.
- Popup.HandleSave: the message and the credential removal are applied together. In the source, the removal completes in a later callback.
- Popup.BuildErrorMessage: the text of the TypeError thrown for a string `non_field_errors` depends on the engine, so it is a parameter of `HandleSave`.

## Findings

| source | as written | input that shows it | evidently intended | confidence | as-written member | corrected member |
|---|---|---|---|---|---|---|
| dashboard/src/Register.jsx:36 | `password.length < 8` counts UTF-16 code units. The server's `len(password) < 8` (backend/applications/auth_views.py:37) counts characters. | A password of four U+1F600 emoji: 8 code units, 4 characters. The form calls `register`, and the server answers 400 "Password must be at least 8 characters long". | The form rejects exactly what the server rejects, counting characters as its message says. | not executed; the discrepancy follows from the two languages' definitions of length | RegisterForm.Validate, Registration.AstralPasswordCounterexample | RegisterForm.ValidateCodePoints, Registration.AcceptedFormPassesServerChecks |
