# Devora site core, modelled in Dafny

Devora is a portfolio and inquiry site. Its server side is four edge functions:

- `admin-auth` guards the admin page with a single password.
- `admin-projects` creates, updates and deletes portfolio projects. It re-hosts remote images into a storage bucket.
- `submit-request` takes visitor inquiries.
- `admin-requests` lists inquiries, marks them read and deletes them.

The client adds a small amount of pure logic:

- translation lookup with fallback, and the persisted language choice;
- the once-a-day page-view counter in the navigation bar;
- the contact form's prefill, validation and payload;
- the portfolio filter and its technology chips;
- the admin page's setup check, project form serialisation, unread badge and upload extension.

Each handler is a pure function of the stored table, the request and an environment value. The environment holds everything the code gets from outside:

- the SHA-256 function;
- the clock and the random text;
- the outcome of `fetch` and of the storage upload;
- the public-URL builder;
- the id and timestamp the database assigns.

Tables are sequences (credentials, requests) or a map keyed by id (projects).

Modules: `Wrappers` (null/undefined and form-check results), `JsString` (the string built-ins with their edge cases), `Decimal` (`String(n)` and `Number(s)`), `Hex` (digest to hex), `Http`, `AdminAuth`, `AdminProjects`, `SubmitRequest`, `AdminRequests`, `I18n`, `LanguageContext`, `Navbar`, `ContactPage`, `PortfolioPage`, `AdminPage`.

Three facts about the code shape the model:

- The contact page sends a blank email as `null` (src/pages/Contact.tsx:90). `submit-request` refuses a falsy email with 400 (supabase/functions/submit-request/index.ts:24). So a contact request without an email is never stored; `ContactPage.BlankEmailNeverSent` proves it.
- `submit-request` never writes `is_read` (supabase/functions/submit-request/index.ts:31-43). The model takes the column default as an input, and `SubmitRequest.SubmittedUnread` assumes the schema default `false`.
- `update` of an id with no row: `.single()` fails and the handler's catch answers 500 "Unknown error". The model returns that and leaves the table unchanged.

## Model

| member | source | states |
|---|---|---|
| Hex.Encode | supabase/functions/admin-auth/index.ts:59-61 | n bytes become 2n characters, all lower-case hex digits |
| Hex.ByteToHex | supabase/functions/admin-auth/index.ts:60 | `toString(16).padStart(2,'0')` is always two digits: the high nibble, then the low nibble |
| Hex.DecodeEncode | supabase/functions/admin-auth/index.ts:59-61 | reading two digits per byte gives back the bytes, so the encoding loses nothing |
| Hex.EncodeInjective | supabase/functions/admin-auth/index.ts:59-61 | different digests never give the same hash text |
| Hex.DigestHexLength | supabase/functions/admin-auth/index.ts:108-111 | a 32-byte digest gives a 64-character hash or token |
| AdminAuth.HashHex | supabase/functions/admin-auth/index.ts:57-61 | the stored form of a password is 64 characters long |
| AdminAuth.TokenSeed | supabase/functions/admin-auth/index.ts:107 | the token is hashed from `${Date.now()}-${random}`; `AdminAuth.Login` states the token is the hex digest of this text |
| AdminAuth.CheckSetup | supabase/functions/admin-auth/index.ts:24-39 | reports set up exactly when a credential row exists |
| AdminAuth.Setup | supabase/functions/admin-auth/index.ts:42-77 | with a row present: 400 "Admin password already set up" and no change; on an empty table: exactly one row holding the hex hash of the new password |
| AdminAuth.Login | supabase/functions/admin-auth/index.ts:79-125 | empty table: 400 "Admin not set up"; otherwise success iff the password's hex hash equals the first row's, else 401; the token is the 64-digit hash of `now-random` |
| AdminAuth.Handle | supabase/functions/admin-auth/index.ts:24-130 | check-setup and login never change the table; setup only fills an empty one; any other action is 400 "Invalid action" |
| AdminAuth.SetupThenCheckSetup | supabase/functions/admin-auth/index.ts:24-76 | check-setup reports false before setup and true after it |
| AdminAuth.SetupTwiceFails | supabase/functions/admin-auth/index.ts:44-54 | a second setup is refused whatever password it carries, and the first password stays |
| AdminAuth.LoginAfterSetup | supabase/functions/admin-auth/index.ts:57-124 | after setup with p, login with q succeeds iff q has the same digest as p, and then returns a 64-digit token; otherwise 401 |
| AdminAuth.AtMostOneCredential | supabase/functions/admin-auth/index.ts:44-76 | whatever sequence of requests arrives, the credential table never holds more than one row |
| AdminProjects.BucketName | supabase/functions/admin-projects/index.ts:22 | a falsy configured bucket name means "project-images" |
| AdminProjects.NeedsRehost | supabase/functions/admin-projects/index.ts:55-59 | re-host exactly a truthy `image_url` that starts with "http" and does not contain the bucket's public path; its cases are fixed by `AdminProjects.RehostExamples` and the handler contracts |
| AdminProjects.PublicPathMarker | supabase/functions/admin-projects/index.ts:59 | the public path `/storage/v1/object/public/{bucket}/`; `AdminProjects.RehostExamples` shows a URL holding it is not re-hosted |
| AdminProjects.ContentSubtype | supabase/functions/admin-projects/index.ts:34 | `split('/')[1].split(';')[0]` of an "image/" type is the subtype: the text after "image/" up to the next '/' or ';' |
| AdminProjects.MediaSubtypeUnique | supabase/functions/admin-projects/index.ts:34 | that characterisation of the subtype admits one string only |
| AdminProjects.UrlPath | supabase/functions/admin-projects/index.ts:36 | `split('?')[0]` is the text before the first '?' |
| JsString.AfterLast | supabase/functions/admin-projects/index.ts:36-38 | the last piece of a split (the URL's last segment, then its suffix) is the text after the last separator, or the whole text when it has none |
| JsString.AfterLastOf | supabase/functions/admin-projects/index.ts:36-38 | behind a separator, a tail free of it is what the last piece gives back |
| AdminProjects.DerivedExtension | supabase/functions/admin-projects/index.ts:32-40 | a non-empty image subtype wins; otherwise a non-empty suffix of a dotted last URL segment; otherwise "png"; never empty |
| AdminProjects.ContentTypeExample | supabase/functions/admin-projects/index.ts:34 | "image/jpeg; q" gives "jpeg" whatever the URL |
| AdminProjects.EmptySubtype | supabase/functions/admin-projects/index.ts:34-35 | "image/" followed by nothing, ';' or '/' has an empty subtype, so the URL decides |
| AdminProjects.UrlExtension | supabase/functions/admin-projects/index.ts:35-40 | with no usable image type, `front/stem.ext` without a query gives `ext`, or "png" when `ext` is empty |
| AdminProjects.UrlExtensionExample | supabase/functions/admin-projects/index.ts:35-39 | "https://example.com/pic.jpg" gives "jpg" |
| AdminProjects.ObjectPathExtension | supabase/functions/admin-projects/index.ts:41 | the object path starts with "projects/"; for an extension without a dot, the path's last dot is followed by exactly the extension |
| AdminProjects.ObjectPath | supabase/functions/admin-projects/index.ts:41 | `projects/{now}-{random}.{ext}`; `AdminProjects.ObjectPathExtension` reads the prefix and the extension back |
| AdminProjects.RehostedUrl | supabase/functions/admin-projects/index.ts:41-45 | the public URL storage gives for the uploaded object's path; `AdminProjects.PrepareImage` and `AdminProjects.HoldsInput` put it in `image_url` |
| AdminProjects.DownloadAndUpload | supabase/functions/admin-projects/index.ts:25-50 | succeeds iff the fetch is ok and the upload has no error; the result is the public URL of `projects/{now}-{random}.{ext}` |
| AdminProjects.RehostExamples | supabase/functions/admin-projects/index.ts:55-60 | a foreign http URL is re-hosted; a URL already under the bucket's public path, an empty URL and null are not |
| AdminProjects.PrepareImage | supabase/functions/admin-projects/index.ts:55-70 | without a re-host the project is unchanged; with one, it fails iff fetch or upload fails, and only `image_url` changes, to the bucket's public URL of `projects/{now}-{random}.{ext}` |
| AdminProjects.RowOf | supabase/functions/admin-projects/index.ts:72-84 | the inserted row copies the input; missing technologies or features become empty lists |
| AdminProjects.Create | supabase/functions/admin-projects/index.ts:52-96 | a failed ingestion gives 400 "Image fetch/upload failed" and no change; otherwise exactly one row is added under the new id, holding the input's fields, empty lists for missing ones, the database's creation time, and the given `image_url` or, when re-hosted, the public URL of the uploaded copy |
| AdminProjects.Update | supabase/functions/admin-projects/index.ts:98-143 | a failed ingestion gives 400 and no change; an absent id gives 500 "Unknown error" and no change; otherwise only the row `projectId` is rewritten, with the input's fields and image as on create, keeping its id and creation time |
| AdminProjects.Delete | supabase/functions/admin-projects/index.ts:145-161 | removes exactly the key `projectId` and answers success |
| AdminProjects.Handle | supabase/functions/admin-projects/index.ts:52-166 | a failed ingestion on create or update gives 400 with the table unchanged; create and update otherwise store exactly the row described for them; an update of an absent id gives 500; delete removes only that row; other actions are 400 "Invalid action" |
| AdminProjects.CreateRehostsRemoteImage | supabase/functions/admin-projects/index.ts:25-84 | creating a project whose image is "https://example.com/pic.jpg" stores the bucket's public URL of `projects/{now}-{random}.jpg` |
| AdminProjects.HandleKeepsWellKeyed | supabase/functions/admin-projects/index.ts:72-149 | every row stays stored under its own id |
| SubmitRequest.Submit | supabase/functions/submit-request/index.ts:24-54 | a falsy name, email, details or type gives 400 "Missing required fields" and no insert; otherwise exactly one row is appended, holding the required fields verbatim, falsy optional fields as null, and the database's id, time and `is_read` default; it is returned as the body |
| SubmitRequest.SubmittedUnread | supabase/functions/submit-request/index.ts:31-43 | with the schema default, the new row is unread and ids stay unique |
| SubmitRequest.BlankNameAccepted | supabase/functions/submit-request/index.ts:24 | validation does no trimming: a name of one blank is accepted and stored as is |
| AdminRequests.SortNewestFirst | supabase/functions/admin-requests/index.ts:24-28 | the rows are ordered by creation time, newest first, and are a permutation of the table |
| AdminRequests.ProjectOf | supabase/functions/admin-requests/index.ts:26-33 | a request carries its project's id, title and category, or null when it references none |
| AdminRequests.WithProjects | supabase/functions/admin-requests/index.ts:26-33 | each listed request, in order, is paired with its own project summary |
| AdminRequests.List | supabase/functions/admin-requests/index.ts:23-46 | every row appears once, newest first, each with its project summary |
| AdminRequests.MarkRead | supabase/functions/admin-requests/index.ts:48-64 | sets `is_read` on the rows with that id and changes nothing else |
| AdminRequests.Remove | supabase/functions/admin-requests/index.ts:66-82 | keeps exactly the rows with another id; an absent id leaves the table as it was |
| AdminRequests.RemoveOne | supabase/functions/admin-requests/index.ts:67-70 | with unique ids, deleting a present id removes exactly one row |
| AdminRequests.Handle | supabase/functions/admin-requests/index.ts:23-87 | list changes nothing; mark-read and delete answer success even for an absent id, and then change nothing; other actions are 400 "Invalid action" |
| AdminRequests.MarkReadIdempotent | supabase/functions/admin-requests/index.ts:49-52 | marking a request read twice is the same as once |
| AdminRequests.RemoveKeepsUniqueIds | supabase/functions/admin-requests/index.ts:67-70 | after a delete no row has that id and ids stay unique |
| AdminRequests.NewestListedFirst | supabase/functions/admin-requests/index.ts:24-34 | a request submitted after all others heads the next listing |
| I18n.Code | src/lib/i18n.ts:307 | the codes are "en" and "ar", one per language |
| I18n.T | src/lib/i18n.ts:303-305 | the language's entry if present, else the English entry, else the key; total |
| I18n.AvailableLangsExact | src/lib/i18n.ts:307 | the available languages are exactly English then Arabic |
| I18n.EnglishIgnoresOtherTables | src/lib/i18n.ts:304 | English text depends only on the English table |
| I18n.EmptyEntryKept | src/lib/i18n.ts:304 | fallback happens only on absence: a present empty entry is returned |
| I18n.PortfolioTitleInArabic | src/lib/i18n.ts:95 | with no Arabic portfolio keys, the Arabic portfolio title is "Project Portfolio" |
| I18n.UnknownKeyShown | src/lib/i18n.ts:304 | a key no table has is shown as the key |
| LanguageContext.ParseLang | src/contexts/LanguageContext.tsx:15 | a stored value is accepted exactly when it is the code of an available language |
| LanguageContext.InitialLang | src/contexts/LanguageContext.tsx:12-18 | the stored language when valid, else English; always available |
| LanguageContext.Persist | src/contexts/LanguageContext.tsx:20-26 | stores and sets the current code; direction is "rtl" iff Arabic, else "ltr" |
| LanguageContext.ReloadKeepsLanguage | src/contexts/LanguageContext.tsx:12-22 | after a change, the next load starts in the language that was set |
| LanguageContext.UnknownStoredIsEnglish | src/contexts/LanguageContext.tsx:14-17 | nothing stored, an empty value or an unknown code start in English |
| Decimal.FromNat | src/components/Navbar.tsx:32 | `String(now)` is a non-empty run of digits with no leading zero |
| Decimal.ToNumber | src/components/Navbar.tsx:30 | `Number(last)` is a number exactly for a non-empty digit run |
| Decimal.ToNumberFromNat | src/components/Navbar.tsx:30-32 | reading back a written timestamp gives the timestamp |
| Navbar.VisitKey | src/components/Navbar.tsx:26 | the key is "pv_" followed by the path |
| Navbar.VisitKeyInjective | src/components/Navbar.tsx:26 | different paths have different keys |
| Navbar.RecentlyRecorded | src/components/Navbar.tsx:30 | `last && now - Number(last) < DAY`; `Navbar.RecordVisit` and the revisit lemmas state its effect |
| Decimal.FromNatInjective | src/components/Navbar.tsx:32 | different times are stored as different stamps |
| Navbar.RecordVisit | src/components/Navbar.tsx:24-36 | records when no stamp exists or the stamp is not a number; with a stamp t, records iff now − t ≥ one day; stamps `now` only when the insert did not throw; otherwise storage is unchanged |
| Navbar.RevisitWithinDaySkipped | src/components/Navbar.tsx:29-32 | a revisit less than 86,400,000 ms (`24*60*60*1000`) after a recorded visit sends nothing |
| Navbar.RevisitAfterDayRecorded | src/components/Navbar.tsx:29-32 | a revisit 86,400,000 ms or more later is recorded again |
| Navbar.OtherPathsUntouched | src/components/Navbar.tsx:26-32 | a visit never reads or writes another path's stamp |
| Navbar.AtMostOneActive | src/components/Navbar.tsx:78 | a link is active iff its path is the pathname, and at most one menu link is |
| Navbar.IsActive | src/components/Navbar.tsx:78 | `location.pathname === link.path`; `Navbar.AtMostOneActive` shows at most one menu link matches |
| Navbar.Toggle | src/components/Navbar.tsx:90 | the toggle always switches the language |
| Navbar.ToggleTwice | src/components/Navbar.tsx:133 | toggling twice restores the language |
| ContactPage.Prefill | src/pages/Contact.tsx:50-60 | a non-empty project parameter is taken; "graduation" selects the student form, "trial" the business form, anything else changes nothing; other fields are kept |
| ContactPage.RequestTypeOf | src/pages/Contact.tsx:83 | "graduation" iff the student form, "trial" iff the business form |
| ContactPage.ClientValid | src/pages/Contact.tsx:71 | name, phone and message must be non-blank after trimming, and email is not checked; `ContactPage.HandleSubmit` and `ContactPage.BlankEmailNeverSent` state its effect |
| ContactPage.Payload | src/pages/Contact.tsx:86-95 | name, phone and details are sent trimmed; a blank email or company name and an empty project id are sent as null |
| ContactPage.HandleSubmit | src/pages/Contact.tsx:68-116 | refuses when name, phone or message is blank after trimming; success iff the handler accepts; success resets the form, failure keeps it and the table |
| ContactPage.BlankEmailNeverSent | src/pages/Contact.tsx:90 | a form passing the page's check with a blank email always fails at the handler, and nothing is stored |
| ContactPage.CompleteFormSent | src/pages/Contact.tsx:83-106 | a complete form with an email appends one row holding the trimmed text and the matching request type, and the form is reset |
| ContactPage.ResetFormRefused | src/pages/Contact.tsx:106 | the reset form fails the page's check until it is filled in again |
| PortfolioPage.FilterProjects | src/pages/Portfolio.tsx:46-48 | "all" shows every project; a category tab shows exactly that category's projects |
| PortfolioPage.FilterConcat | src/pages/Portfolio.tsx:46-48 | filtering keeps the listing's order |
| PortfolioPage.TabsPartition | src/pages/Portfolio.tsx:46-48 | the student and business tabs together show every project once |
| PortfolioPage.ShownChips | src/pages/Portfolio.tsx:148 | the chips are the first min(4, n) technologies |
| PortfolioPage.OverflowBadge | src/pages/Portfolio.tsx:156-160 | "+N" appears iff there are more than four technologies, with N ≥ 1 |
| PortfolioPage.ChipsAccountForAll | src/pages/Portfolio.tsx:148-160 | chips plus N equal the total, and the chips are a prefix |
| PortfolioPage.LinkType | src/pages/Portfolio.tsx:171 | "graduation" iff a student project, "trial" iff a business project |
| PortfolioPage.RequestInfoLink | src/pages/Portfolio.tsx:171 | the link is "/contact?project=", the project's id, then "&type=" and the request type matching the category |
| PortfolioPage.RequestInfoPrefillsForm | src/pages/Portfolio.tsx:171 | following a card's link preselects that project and the form whose request type matches the project's category |
| AdminPage.SetupCheck | src/pages/Admin.tsx:113-121 | the password is sent iff it has at least 6 characters and matches the confirmation; the length message comes first |
| AdminPage.AcceptedPasswordLogsIn | src/pages/Admin.tsx:113-127 | a password the setup form sends to a fresh table is then accepted at login when typed as confirmed |
| AdminPage.NullToEmpty | src/pages/Admin.tsx:205-208 | a null URL opens as an empty field |
| AdminPage.OpenProjectForm | src/pages/Admin.tsx:198-223 | an opened project shows its fields; lists joined by ", " and by line breaks; null URLs as "" |
| AdminPage.ParseTags | src/pages/Admin.tsx:238-239 | every parsed element is non-empty, trimmed and free of the separator |
| AdminPage.TrimAll | src/pages/Admin.tsx:238-239 | `.map(trim)`: one trimmed piece per piece, in order |
| AdminPage.DropEmpty | src/pages/Admin.tsx:238-239 | `.filter(Boolean)`: exactly the non-empty pieces are kept, and nothing changes when none is empty |
| AdminPage.DropEmptyConcat | src/pages/Admin.tsx:238-239 | the filter keeps the remaining pieces in order and as often as they occur |
| AdminPage.TrimInside | src/pages/Admin.tsx:238-239 | trimming adds no character |
| AdminPage.SaveProject | src/pages/Admin.tsx:225-241 | refuses "Title and description are required" iff either is empty; otherwise empty URLs become null and the lists are parsed |
| AdminPage.NewProjectForm | src/pages/Admin.tsx:211-241 | the blank form of a new project is refused; with a title and description typed it saves with no image, no demo link and empty lists |
| AdminPage.TechnologiesRoundTrip | src/pages/Admin.tsx:206-238 | joining with ", " and re-parsing gives back any list of comma-free tags |
| AdminPage.FeaturesRoundTrip | src/pages/Admin.tsx:207-239 | joining with line breaks and re-parsing gives back any list of tags without line breaks |
| AdminPage.UrlFieldRoundTrip | src/pages/Admin.tsx:205-240 | a blank URL is saved as null and null opens as blank; a non-empty URL passes both ways unchanged |
| AdminPage.EditRoundTrip | src/pages/Admin.tsx:198-241 | opening a representable project and saving it unchanged sends back exactly its content |
| AdminPage.UnchangedEditKeepsStore | src/pages/Admin.tsx:225-241 | such an unchanged save, with no image to re-host, leaves the project table as it was |
| AdminPage.Unread | src/pages/Admin.tsx:473 | the filtered list holds exactly the unread requests |
| AdminPage.UnreadCount | src/pages/Admin.tsx:473-475 | the count, taken one row at a time, never exceeds the number of requests; `AdminPage.CountIsFilterLength` ties it to the filtered list |
| AdminPage.CountIsFilterLength | src/pages/Admin.tsx:473-475 | the count equals the length of the filtered list |
| AdminPage.NoUnreadIffAllRead | src/pages/Admin.tsx:473 | the count is zero iff every request is read |
| AdminPage.Badge | src/pages/Admin.tsx:473-475 | the badge appears iff some request is unread, and shows the positive count |
| AdminPage.MarkReadNeverRaisesCount | src/pages/Admin.tsx:473-475 | marking a request read never raises the count |
| AdminPage.MarkReadLowersCountByOne | src/pages/Admin.tsx:473-475 | with unique ids, marking an unread request read lowers the count by exactly one |
| AdminPage.SubmissionRaisesCount | src/pages/Admin.tsx:473-475 | a new submission, stored unread, raises the count by one |
| AdminPage.UploadExtension | src/pages/Admin.tsx:304 | the extension is the lower-cased text after the last "." (the whole name when it has none), or "png" only when that text is empty |
| AdminPage.UploadExtensionExamples | src/pages/Admin.tsx:304 | a name ending in "." and the empty name give "png"; "photo.JPG" gives "jpg" |
| JsString.SplitJoin | src/pages/Admin.tsx:207 | splitting a join on a separator no piece contains gives back the pieces |
| JsString.JoinSplit | src/pages/Admin.tsx:238-239 | joining the pieces of a split with the separator gives back the text |
| JsString.LastPiece | src/pages/Admin.tsx:304 | the last piece of a split is the text after the last separator |
| JsString.Trim | src/pages/Contact.tsx:71 | the result is trimmed: the text after the leading whitespace, cut where only whitespace follows |
| JsString.OrNull | supabase/functions/submit-request/index.ts:38-42 | `x \|\| null`: a falsy text becomes null and a truthy one is kept |
| JsString.ToLowerAscii | src/pages/Admin.tsx:304 | `toLowerCase` on ASCII: same length, each upper-case letter replaced by its lower-case one, every other character kept |
| JsString.Split | src/pages/Admin.tsx:238-239 | `split` with a one-character separator gives at least one piece, and no piece contains the separator; with `JsString.JoinSplit` the pieces are fixed |
| JsString.Join | src/pages/Admin.tsx:206-207 | `join`; what it builds is fixed by `JsString.SplitJoin` and `JsString.JoinSplit` |

## Left out

- SHA-256 itself, the clock, `Math.random` and its base-36 text, `fetch`, the storage upload and `getPublicUrl`: these are parameters of the handlers. Only their outcomes are modelled.
- JSON parsing of request bodies, CORS preflight answers and response headers. A request whose `project` object is missing entirely is not modelled; every `ProjectInput` is present.
- Database errors other than the `update` of an absent id. The generic 500 "Unknown error" wrapper for them is left out. Database enum and foreign-key checks are left out too.
- AdminProjects.Update: a `project` object with a member missing altogether is not modelled; every member is present, and None means JSON `null`. In the code, an absent `image_url`, `demo_url`, `title`, `description` or `category` is dropped from the update, so that column keeps its stored value; on create the column gets its default. The admin page always sends all seven members (src/pages/Admin.tsx:233-241). Missing lists are covered, since `|| []` treats absent and `null` alike.
- AdminProjects.Create: requires that the id the database assigns is not already in the table, as a generated UUID is.
- The check-then-insert race in `setup` and all concurrency: every model runs requests one at a time.
- AdminRequests.SortNewestFirst: the order of rows with equal `created_at` is unspecified in the database and is left open here.
- JsString.Trim: JavaScript string length and indexing count UTF-16 code units, while Dafny strings hold Unicode scalar values. Lengths agree only for text inside the Basic Multilingual Plane.
- AdminPage.SetupCheck: the 6-character minimum is compared on Unicode scalar values, not on UTF-16 code units.
- AdminPage.UploadExtension: `toLowerCase` is modelled for ASCII letters only.
- Decimal.ToNumber: `Number(s)` is modelled only for the texts the site stores. Other syntaxes are treated as NaN: blanks around digits, signs, decimals and exponents.
- The translation strings themselves are data. `I18n.T` takes the two tables as a parameter. JavaScript prototype keys such as "constructor" are not modelled.
- Navbar.RecordVisit: the stored value is assumed readable. A throwing `localStorage` is not modelled.
- The page-view count, the React state, toasts, modals, loading flags and scroll effects are left out. So are the animation components, the static pages and the storage image picker on the admin page.
- URL query-string parsing: `PortfolioPage.RequestInfoPrefillsForm` passes the link's two parameters to the contact page directly.
- ContactPage.HandleSubmit: the browser's own form validation is not modelled. It blocks submission before the handler runs: the email input's `type="email"` check rejects a non-empty malformed address (src/pages/Contact.tsx:254), and the `required` name, phone and message inputs reject empty ones (src/pages/Contact.tsx:246, 276, 342). The model applies only the handler's trim check, so `ContactPage.CompleteFormSent` also covers forms the browser would stop.
- Network failure of the contact form's request: the model covers only the handler's answer.
