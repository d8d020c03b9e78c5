# Save-for-later popup: the session rules, in Dafny

The popup of this browser extension saves the open tabs of a window as a
named *session* in the browser's local storage. It lists the saved sessions,
reopens them and renames them. Most of `popup/warehouse.js` builds DOM nodes
and calls asynchronous browser APIs. This project models the rules inside
that code:

- which live tabs are captured: the highlighted ones when more than one is
  highlighted, and only `http://`, `https://` and `file://` pages;
- what record each captured tab becomes, and the automatic
  `D/M H:M | N tabs` title;
- how a typed title is sanitised, and when a rename is written;
- how `persist` overwrites exactly one storage key;
- the order of the rendered list and how row labels are cut at 30
  characters;
- what reopening a session does, as a plan of browser calls.

Modules (one file each):

- `Text` (`text.dfy`): JavaScript's `trim` whitespace set, `Trim`, and the
  decimal text of a number together with its inverse.
- `Model` (`model.dfy`): the live tab, the saved tab record, the session,
  the `storageObject` constructor and the storage key of an id.
- `Capture` (`capture.dfy`): `countHighlighted`, `isHighlighted`, the
  record-building loop and the automatic title of `storeIt`.
- `Rename` (`rename.dfy`): `santizeTitleName`, the guard of
  `validateAndUpdateTitle` and its effect on the stored map, and a
  corrected guard (see "Findings").
- `Storage` (`storage.dfy`): the storage area as a class holding a map from
  key to session, with `persist`, `storeIt` and `validateAndUpdateTitle` as
  methods.
- `ListView` (`list_view.dfy`): `createList` without the DOM. Its result is
  a sequence of blocks, each holding a title and rows.
- `Reopen` (`reopen.dfy`): `openSave` and `validateAndOpenSave` as pure
  action plans.

Where the clock, the browser or storage would be read, the model takes a
parameter instead:

- the timestamp id and the date parts are parameters (`Clock`);
- the order in which the stored object's keys enumerate is an explicit
  sequence of keys;
- the two browser queries made before reopening are `Option` parameters,
  with `None` meaning the query failed.

Three behaviours of the code are worth stating outright:

- Only typed titles shorter than 40 characters are trimmed. A typed title
  of 40 or more characters is cut to its first 40 characters as it is, so
  forty spaces are written as the new title
  (`Rename.RenameLongBlankIsWritten`).
- The automatic title pads no part with zeros: 9:07 is written `9:7`
  (`Capture.AutoTitleExample`).
- `deleteHandler` only checks whether the storage call returned
  `undefined`; deletion is not modelled.

## Model

| member | source | states |
|---|---|---|
| `Text.Trim` | popup/warehouse.js:190 | `trim()` returns a slice of its input. Only whitespace lies outside that slice. The result neither starts nor ends with whitespace. It is empty exactly when the input is all whitespace. |
| `Text.TrimIdempotent` | popup/warehouse.js:190 | Trimming twice gives the same result as trimming once. |
| `Text.Decimal` | popup/warehouse.js:273-283 | A number concatenated into a string becomes a non-empty run of digits. The only form with a leading zero is "0". |
| `Text.DecimalRoundTrip` | popup/warehouse.js:273-283 | Reading the decimal text of `n` back gives `n`. |
| `Model.StorageObject` | popup/warehouse.js:15-22 | The constructor keeps id, title, tabs and tags as given. It always sets `pinned` to false. |
| `Model.Key` | popup/warehouse.js:293 | The key `obj[id]` is a non-empty run of decimal digits whose value is the id. |
| `Model.KeyInjective` | popup/warehouse.js:290-293 | Two ids share a storage key (`obj[id]`) exactly when they are equal. |
| `Capture.HighlightedCount` | popup/warehouse.js:25-33 | The number of highlighted tabs is at most the number of tabs. It is 0 exactly when no tab is highlighted. |
| `Capture.CountHighlighted` | popup/warehouse.js:25-33 | The counting loop returns `HighlightedCount` of its input. |
| `Capture.IsHighlighted` | popup/warehouse.js:35-37 | The filter predicate accepts a tab exactly when `countHighlighted` counts it. |
| `Capture.Highlighted` | popup/warehouse.js:35-37 | `filter(isHighlighted)` keeps exactly the highlighted tabs. Its length is the highlighted count. |
| `Capture.HighlightedAppend` | popup/warehouse.js:261 | Filtering distributes over concatenation, so the kept tabs stay in input order. |
| `Capture.SelectTabs` | popup/warehouse.js:260-262 | With more than one tab highlighted, only the highlighted tabs are kept. Otherwise the tab list is unchanged. |
| `Capture.IsSaveableUrl` | popup/warehouse.js:5 | A url matches the pattern exactly when it starts with one of the schemes `http`, `https` or `file` followed by `://`. A matching url has at least 7 characters. |
| `Capture.ToRecord` | popup/warehouse.js:266-269 | A record's label is the tab title when that is present and non-empty, and the url otherwise. Its url is the tab's url. Its icon is the favicon when that is present and non-empty, and null otherwise. |
| `Capture.Records` | popup/warehouse.js:264-272 | Every record has an http, https or file url and a non-empty label. Every tab with such a url yields its record. Every record comes from such a tab. |
| `Capture.RecordsAppend` | popup/warehouse.js:264-272 | Records of a concatenation are the concatenated records, so records follow tab order. |
| `Capture.BuildRecords` | popup/warehouse.js:258-272 | The push loop produces exactly `Records` of its input. |
| `Capture.AutoTitle` | popup/warehouse.js:273-283 | The automatic title starts with the day of the month and a slash, and ends with " \| ", the tab count and " tabs". |
| `Capture.AutoTitleTabCount` | popup/warehouse.js:273-283 | The tab count read back from the automatic title is the count it was built with. |
| `Capture.AutoTitleExample` | popup/warehouse.js:273-283 | Day 5 of January at 9:07 with 3 tabs gives "5/1 9:7 \| 3 tabs". The month is getMonth()+1 and the minutes are not padded. |
| `Capture.CaptureSession` | popup/warehouse.js:250-287 | The saved session carries the given id. It is unpinned and has null tags. Its tabs are the records of the selected tabs, all with allowed schemes, including when there are none. Its title states the record count. |
| `Capture.CaptureExample` | popup/warehouse.js:5-6 | With no highlight, an https tab is kept. An `about:blank` tab and an `ftp://` tab are dropped. |
| `Rename.SanitizeTitleName` | popup/warehouse.js:185-191 | The result is at most 40 characters long. Inputs of 40 characters or more become their first 40 characters, untrimmed. Shorter inputs are trimmed. The result is empty exactly for a short all-whitespace input. |
| `Rename.SanitizeIdempotent` | popup/warehouse.js:185-191 | Sanitising a sanitised title changes nothing. |
| `Rename.LongBlankTitleIsKept` | popup/warehouse.js:187-188 | Forty spaces sanitise to forty spaces, which is not empty. |
| `Rename.RenameWrite` | popup/warehouse.js:178-183 | A write happens exactly when the sanitised text is non-empty and differs from the current title. The written record keeps id, tabs and tags, takes the sanitised title and is unpinned. |
| `Rename.RenamedTitleIsSanitized` | popup/warehouse.js:178-191 | A written title is non-empty, at most 40 characters long and a fixed point of sanitising. |
| `Rename.RenameToCurrentTitleIsNoOp` | popup/warehouse.js:178-183 | Renaming a session to its own sanitised title writes nothing. |
| `Rename.RenameIsIdempotent` | popup/warehouse.js:178-183 | Once the session has been re-read from storage, repeating a rename that was written writes nothing. |
| `Rename.StoredAfterRename` | popup/warehouse.js:178-183 | After a rename the storage holds the renamed record under the session's key when the guard lets it through, and is unchanged otherwise. No other key changes. |
| `Rename.RenameSameObjectTwice` | popup/warehouse.js:178-183 | Handling the same text twice with the `obj` captured at render time (line 54, passed by the handlers at lines 84, 93 and 103) leaves the storage as handling it once. |
| `Rename.StaleRenameBackIsLost` | popup/warehouse.js:178-183 | Within one rendering, renaming a session to a new title and then back to its rendered title leaves the new title stored: "Old" to "New" and back leaves "New". |
| `Rename.StoredAfterFreshRename` | popup/warehouse.js:178-183 | With the guard comparing against the stored title, a stored session renamed to a text whose sanitised form is non-empty holds that form afterwards. A text that sanitises to empty (blank and under 40 characters) changes nothing. No other key changes. |
| `Rename.FreshRenameBackIsKept` | popup/warehouse.js:178-183 | With the corrected guard, renaming a stored session to a new title and then back to its stored title leaves the stored title in place. |
| `Rename.RenameBlankIsIgnored` | popup/warehouse.js:178-191 | An empty or all-whitespace text shorter than 40 characters writes nothing. |
| `Rename.RenameLongBlankIsWritten` | popup/warehouse.js:178-191 | Forty spaces typed over "Old" are written. |
| `Rename.RenameExample` | popup/warehouse.js:178-191 | "   New Title   " typed over "Old" writes the title "New Title". |
| `Storage.SessionStore.Persist` | popup/warehouse.js:290-301 | The entry at the id's key becomes a fresh unpinned record. Every other key keeps its presence and its value. |
| `Storage.SessionStore.StoreIt` | popup/warehouse.js:250-287 | The store after `storeIt` is the old store with `CaptureSession` written at the new id's key. |
| `Storage.SessionStore.ValidateAndUpdateTitle` | popup/warehouse.js:178-183 | The store becomes `StoredAfterRename` of the old store: unchanged when the guard refuses, and otherwise only the session's key changes, to the renamed record. |
| `Storage.SessionStore.UpdateTitleFromStore` | popup/warehouse.js:178-183 | The rename with the corrected guard: the store becomes `StoredAfterFreshRename` of the old store. |
| `Storage.PersistIsolatesIds` | popup/warehouse.js:290-296 | Writing one id never adds, removes or changes the entry of a different id. |
| `Storage.SavedSessionIsListedFirst` | popup/warehouse.js:308-318 | When the new key enumerates last, the list rendered from the store after `persist` shows the new session first. It has one row per kept tab, and its title states that count. |
| `ListView.Label` | popup/warehouse.js:148-153 | A label under 30 characters is shown unchanged. A label of 30 or more is shown as its first 30 characters plus "...", 33 characters in all. |
| `ListView.LabelAtCutoff` | popup/warehouse.js:150 | A label of exactly 30 characters still gets the ellipsis. |
| `ListView.Rows` | popup/warehouse.js:142-163 | There is one row per tab, in tab order. Each row shows that tab's cut label and opens its url. |
| `ListView.Reverse` | popup/warehouse.js:46-49 | Unshifting every key yields the enumeration reversed. |
| `ListView.BlocksOf` | popup/warehouse.js:51-54 | There is at most one block per id. Every block shows the session of an id that is an own key. |
| `ListView.Rendered` | popup/warehouse.js:46-167 | The rendered list has at most one block per enumerated key. Every block shows the session stored under an enumerated own key. |
| `ListView.CreateList` | popup/warehouse.js:39-169 | The rendering loops produce `Rendered` of the key enumeration and the stored object. |
| `ListView.RenderedNewestFirst` | popup/warehouse.js:46-52 | An own key enumerated last is rendered first, ahead of everything else. |
| `ListView.RenderedSkipsInherited` | popup/warehouse.js:52 | A key that is not an own key renders nothing. |
| `ListView.RenderedPositions` | popup/warehouse.js:46-52 | When every key is an own key, block i shows the session of the i-th key from the end. |
| `Reopen.UrlsOf` | popup/warehouse.js:219-222 | The collected URLs are the tabs' urls, one per tab, in order. |
| `Reopen.CollectUrls` | popup/warehouse.js:219-222 | The push loop returns one url per tab, in tab order. |
| `Reopen.InPlace` | popup/warehouse.js:198-209 | The in-place plan alternates a new tab for each URL with a removal of the placeholder. It contains no other action. |
| `Reopen.OpenPlan` | popup/warehouse.js:197-216 | In either branch every saved URL is opened exactly once, in order. A window is created exactly when the current window does not show a lone placeholder. |
| `Reopen.OpenSave` | popup/warehouse.js:197-216 | The loop issues exactly the plan `OpenPlan` describes. |
| `Reopen.InPlaceOpens` | popup/warehouse.js:198-209 | The in-place plan opens the URLs in order. |
| `Reopen.PlaceholderRemoval` | popup/warehouse.js:198-208 | The placeholder is removed exactly when the window shows a lone new-tab page and there is at least one URL. No other tab is ever removed. |
| `Reopen.OneWindowOtherwise` | popup/warehouse.js:210-215 | Without a placeholder, exactly one window is created, with all URLs and the given incognito flag. |
| `Reopen.ReopenPlan` | popup/warehouse.js:218-236 | Reopening opens exactly the session's URLs, in order. When the tab query fails, one non-incognito window is opened with all of them. |
| `Reopen.ValidateAndOpenSave` | popup/warehouse.js:218-236 | Reopening issues `ReopenPlan`: the session's URLs and the last-focused window's incognito flag (false if that query failed), or the fallback when the tab query fails. |
| `Reopen.WindowFollowsIncognito` | popup/warehouse.js:223-234 | A created window is incognito exactly when the last-focused window reported incognito and the tab query succeeded. |

## Left out

- DOM construction and event wiring in `createList`, `handleTitleUpdate` and `insertTextAtCaret` (popup/warehouse.js:56-140, 171-176, 239-248). They are UI: only the list order, the row labels and urls, and the rename guard are modelled.
- `retrieveIt`, `getCurrentWindowTabs`, `saveHandler`, `updateHandler` and `deleteHandler` are left out. They forward to the browser's asynchronous storage and tab APIs. `deleteHandler` only checks whether the storage call returned `undefined`.
- `Storage.SessionStore.Persist`: a storage write that fails is logged and swallowed in the source. The model always writes.
- `Reopen.ValidateAndOpenSave`: the `catch` after the tab query would also catch an exception thrown inside `openSave` itself. The model only treats a failed tab query as the failure case.
- `Reopen.OpenSave`: the plan lists the calls in the order they are issued. The browser runs them without awaiting, so the order in which they complete is not modelled. Only the first removal can succeed; the later ones fail and are logged.
- `new Date()` is not modelled. The id and the date parts are parameters, and ids are natural numbers (a clock before 1970 is not modelled).
- The `colorscheme` constants are presentation only.
- JavaScript string lengths count UTF-16 code units. The model counts characters (Unicode scalar values), so a title or label with characters outside the Basic Multilingual Plane is cut at a different place.
- `Model.Key`: JavaScript writes numbers of 10^21 and above in exponent form. The model always uses plain decimal digits.
- `Storage.SavedSessionIsListedFirst`: `persist` starts the storage write and does not return its promise, so `saveHandler` may fetch the list before the write has finished. The model treats the write as finished before the list is fetched.
- A tab reported without a url makes `tab.url.match` throw at popup/warehouse.js:265, so `storeIt` rejects and nothing is saved. The model's `BrowserTab` always carries a url string, so this failure is not modelled.
- The order of the stored object's keys is an input of `ListView.CreateList`. The JavaScript engine and the browser's storage decide that order, and they are not modelled.

## Findings

| source | as written | input that shows it | evidently intended | confidence | as-written member | corrected member |
|---|---|---|---|---|---|---|
| popup/warehouse.js:178-183 | The rename guard compares the sanitised text with `obj.title`, the title captured when the list was rendered (line 54). `persist` never updates that `obj`, so later renames in the same rendering compare against a stale title. | A session titled "Old" is renamed to "New" and then back to "Old" without the list being re-rendered. The second rename sees "Old" equal to `obj.title` and writes nothing, so "New" stays stored while "Old" is shown. | The last rename wins: the guard compares against the title currently stored. | medium, not executed | `Rename.StaleRenameBackIsLost` | `Rename.StoredAfterFreshRename`, `Rename.FreshRenameBackIsKept`, `Storage.SessionStore.UpdateTitleFromStore` |
