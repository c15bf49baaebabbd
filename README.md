# displaymanager in Dafny

A model of the display manager's core. A link store maps display ids
(`tv1` … `tv6` by default) to the URL each TV should show.
Three pieces of the system work with it:

- **The Flask admin servers** (`spreadisplay3/app.py`, and the older
  `SpreadDisplay/app.py`). They edit the store through HTTP handlers and
  serve the PNG snapshots that a browser worker takes of each URL.
- **The standalone editor** (`vm/app.py`). It overwrites links without
  validating them, and proxies a TV's page directly, filtering the
  response headers.
- **The TV app** (`tizen/tvapp/js/main.js`). It lists the ids, shows the
  selected id's snapshot and moves between ids with the remote's arrow
  keys.

Also modelled is the window geometry of the desktop tool in `main.py`:
intersection area, the monitor a window is on, and the title filter.

Modules:

- `Wrappers`, `Seqs`, `Text`, `Dicts` hold shared vocabulary:
  - `Option`;
  - `Distinct`, `Without` and `Filter` on sequences;
  - prefix and substring tests, and ASCII lower-casing;
  - `Dict`, a string-to-string dictionary that keeps Python's insertion
    order of keys, with `Put` (assignment) and `Del` (`del`).
- `LinkStore` holds what both Flask servers share:
  - the URL check `IsValidUrl` and the default record;
  - the update loop of `/update_links` as the method `ApplyForm`, proved
    against the function `Merged` and the predicate `FirstRejected`;
  - the order in which the rename, add and delete handlers check their
    request (`RenameCheck`, `AddCheck`, `DeleteCheck`).
- `SpreadDisplay3` and `SpreadDisplay` each hold a class `Store`. Its
  fields are:
  - `links`: the stored `tv_links.json`;
  - `snaps`: the ids that have a `snapshots/<id>.png`.

  There is one method per handler that changes them, and a reads-only
  function `Proxy` for the snapshot route. `/api/validate_url` touches no
  state in either service and is the single function
  `LinkStore.ValidateUrl`; the snapshot route's answer is
  `LinkStore.SnapshotLookup`.
- `LinksEditor` holds the unvalidated overwrite loop (`Overwrite`, against
  `Overwritten`), the header filter and the proxy of `vm/app.py`.
- `WindowGeometry` holds `rect_intersection_area`,
  `find_monitor_for_window` as a scanning method, and `filter_windows`.
- `TvRemote` holds the TV app's state as a class `TvApp`: the id list, the
  selected id, the viewer's address and the links container. Its methods
  model `displayLinks`, `loadTv`, `fetchLinks` and the keydown handler.
  The arrow keys are specified by `Step`, which uses `JsRem`, JavaScript's
  truncated `%`.

Notes on the code:

- `is_valid_url` accepts `"https://a.b"`: the rule is a scheme prefix and
  a length above 10, and that string has 11 characters. So `https://`
  needs at least 3 more characters and `http://` at least 4
  (`LinkStore.IsValidUrlThreshold`, `LinkStore.IsValidUrlExamples`).
- The `vm/app.py` proxy calls `raise_for_status()` inside the `try`, so a
  target answering 4xx or 5xx gets a 500 from the proxy. Only statuses
  below 400, or of 600 and above, are relayed (`LinksEditor.Editor.Proxy`).
- In `SpreadDisplay/app.py`, `validate_url` and `is_valid_url` are the
  same as in `spreadisplay3/app.py`. Both stores therefore use the single
  `LinkStore.IsValidUrl`.

The keydown handler has one quirk that the page never reaches. Suppose
there are ids but none is selected (`indexOf` gives -1). Then ArrowLeft
moves to the second-to-last id, not the last
(`TvRemote.LeftIndexMoves`). `fetchLinks` always selects the first id,
and `TvApp.FetchLinks` and `TvApp.KeyDown` keep `Selected()`. So the
state never arises on the page.

## Model

| member | source | states |
|---|---|---|
| Wrappers.Option.GetOr | spreadisplay3/app.py:117 | `data.get(k, default)`: the value when present, the default otherwise |
| Wrappers.Get | spreadisplay3/app.py:79-80 | `dict.get`: present exactly when the key is in the map, and then the stored value |
| Dicts.Put | spreadisplay3/app.py:61 | assignment keeps the dictionary well formed, updates the value, leaves the key order alone for a present key, and appends a new key at the end, growing the size by one |
| Dicts.Del | spreadisplay3/app.py:97 | `del` of a present key removes exactly that key from the values and from the key order, and shrinks the size by one |
| Dicts.Move | spreadisplay3/app.py:96-97 | moving a value from a present key to an absent one keeps the dictionary well formed and its size, drops the old key from the order and appends the new one |
| Seqs.Without | spreadisplay3/app.py:97 | removing an element from a key order keeps every other element and distinctness, and shortens it by one when present |
| Seqs.WithoutAt | spreadisplay3/app.py:151 | removing the key at position i of a key order leaves exactly the keys before it followed by the keys after it, in their order |
| Seqs.Filter | vm/app.py:80-81 | a list comprehension with a condition keeps exactly the elements satisfying it, and is never longer |
| Seqs.FilterConcat | vm/app.py:80-81 | the comprehension distributes over concatenation, so the order of the list is kept |
| Text.HasPrefix | spreadisplay3/app.py:45 | `startswith` holds only when the prefix is no longer than the string and agrees with it position by position |
| Text.Contains | spreadisplay3/app.py:231 | Python's `in` on strings holds only when the text is no longer than the string |
| Text.NotContains | main.py:106 | a text that starts at no position of the string is not in it |
| Text.ContainsInfix | spreadisplay3/app.py:231 | Python's `in` on strings finds any infix |
| Text.ContainsIsInfix | spreadisplay3/app.py:231 | conversely, when `in` holds the text occurs at some position of the string |
| Text.Lower | main.py:105-106 | `lower()` keeps the length and lowers each character |
| LinkStore.IsValidUrl | spreadisplay3/app.py:44-45 | a valid URL has at least 11 characters and starts with `h` |
| LinkStore.IsValidUrlThreshold | spreadisplay3/app.py:44-45 | an `http://` URL is valid iff at least 4 characters follow the scheme; an `https://` URL iff at least 3 do |
| LinkStore.IsValidUrlNeedsScheme | spreadisplay3/app.py:44-45 | a string without either scheme, or of 10 characters or fewer, is never valid |
| LinkStore.IsValidUrlExamples | spreadisplay3/app.py:44-45 | `ftp://x.com` and `http://a.b` are rejected; `https://a.b` and the placeholder URL are accepted |
| LinkStore.DefaultIdsDistinct | spreadisplay3/app.py:21-29 | the six default ids are distinct |
| LinkStore.DefaultLinks | spreadisplay3/app.py:21-29 | the default record is well formed, has keys `tv1` … `tv6` in order, and maps each to the placeholder URL, which passes the URL check |
| LinkStore.Seed | spreadisplay3/app.py:21-38 | the record after start-up is the file's content when it exists, and the defaults otherwise |
| LinkStore.Given | spreadisplay3/app.py:82 | Python's truthiness of an optional string: set and non-empty |
| LinkStore.Changed | spreadisplay3/app.py:58-59 | a stored key whose `request.form.get` value is present, non-empty and different from the stored value |
| LinkStore.Rejects | spreadisplay3/app.py:59-65 | a rejected key has a non-empty submitted value that fails the URL check; a changed value that passes it is never rejected |
| LinkStore.Merged | spreadisplay3/app.py:57-61 | a successful update keeps the record well formed, its key order and its key set |
| LinkStore.MergedValues | spreadisplay3/app.py:57-61 | each changed key holds its submitted value and every other key keeps its stored value |
| LinkStore.CountChangedIsCardinality | spreadisplay3/app.py:55-62 | the counter the loop keeps equals the number of keys whose submitted value is given and differs from the stored one |
| LinkStore.FirstRejectedIsUnique | spreadisplay3/app.py:57-65 | at most one key is the first rejected one in key order, so the error names a unique field |
| LinkStore.MergedWithoutChanges | spreadisplay3/app.py:67-72 | a count of zero means the saved record equals the loaded one |
| LinkStore.MergedUpToAt | spreadisplay3/app.py:57-62 | after the first n keys of the loop, each key among them holds its submitted value if it changed, and its old value otherwise; later keys are untouched |
| LinkStore.FirstIndex | spreadisplay3/app.py:57-65 | the index where the loop stops: the first key in key order whose value is rejected, with none rejected before it, or the number of keys when none is |
| LinkStore.FirstIndexStays | spreadisplay3/app.py:63-65 | once the loop reaches a rejected key with none before it, later keys do not change where it stops |
| LinkStore.OutcomeMeaning | spreadisplay3/app.py:52-67 | the update succeeds iff no stored key's submitted value is rejected; a failure names the first rejected key in key order and its value; a success is the merged record with the number of changed keys |
| LinkStore.ApplyForm | spreadisplay3/app.py:52-67 | the loop, which returns at the first rejected value, computes exactly the specified outcome: the first rejected field and its value, or the record after all keys with the count of changed keys |
| LinkStore.RenameCheck | spreadisplay3/app.py:78-94 | a rename is accepted iff both names are given and non-empty, they differ, the old one exists and the new one does not; each refusal reason holds iff its check is the first to fail in handler order |
| LinkStore.AddCheck | spreadisplay3/app.py:115-128 | an add is accepted iff the name is given and new and the URL (placeholder when absent) passes the URL check; each refusal reason holds iff its check is the first to fail in handler order |
| LinkStore.DeleteCheck | spreadisplay3/app.py:137-149 | a delete is accepted iff the name is given, exists and is not the last entry; each refusal reason holds iff its check is the first to fail in handler order |
| LinkStore.ValidateUrl | spreadisplay3/app.py:178-186 | the verdict is the URL check on the given field; a missing field or one of 10 characters or fewer is invalid (SpreadDisplay/app.py has the same handler) |
| LinkStore.SnapshotLookup | spreadisplay3/app.py:188-193 | the snapshot route answers 404 exactly for an id without a snapshot, and otherwise that id's PNG |
| SpreadDisplay3.Store.constructor | spreadisplay3/app.py:18-38 | import seeds the record from the file or the defaults and starts with the existing snapshot directory or an empty one |
| SpreadDisplay3.Store.UpdateLinks | spreadisplay3/app.py:52-74 | an invalid changed URL aborts with nothing saved and names the first rejected field; otherwise the merged record is saved, and the flash reports a positive count or no changes |
| SpreadDisplay3.Store.RenameMonitor | spreadisplay3/app.py:76-111 | the reply is the rename check's verdict; a refusal changes nothing; success moves the value to the new id at the end of the key order, keeps the size, moves an existing snapshot and leaves no old snapshot behind |
| SpreadDisplay3.Store.RenameSnapshot | spreadisplay3/app.py:100-109 | an existing old snapshot is renamed; otherwise one written during the pause is removed; no old snapshot remains |
| SpreadDisplay3.Store.AddMonitor | spreadisplay3/app.py:113-133 | the reply is the add check's verdict; success appends the new id with the given or placeholder URL and grows the size by one |
| SpreadDisplay3.Store.RemoveSnapshot | spreadisplay3/app.py:154-156 | the snapshot of the id is gone afterwards and every other snapshot stays |
| SpreadDisplay3.Store.DeleteMonitor | spreadisplay3/app.py:135-158 | the reply is the delete check's verdict; success removes the entry and its snapshot; the store never becomes empty |
| SpreadDisplay3.Store.ResetLinks | spreadisplay3/app.py:160-172 | the record becomes the defaults and snapshots are untouched |
| SpreadDisplay3.Store.Proxy | spreadisplay3/app.py:188-193 | an id gets a 404 exactly when it has no snapshot, and otherwise its own PNG |
| SpreadDisplay3.SessionExpired | spreadisplay3/app.py:231 | an expired-session URL has at least 5 characters, and a URL starting with `login` is one |
| SpreadDisplay3.SessionExpiredOnLoginPages | spreadisplay3/app.py:230-231 | a URL containing `login` or `signin` anywhere counts as an expired session, and one in which neither word starts at any position does not |
| SpreadDisplay3.AllGiven | spreadisplay3/app.py:200 | Python's `all` over the optional strings holds iff every entry is set and non-empty |
| SpreadDisplay3.CredentialsPresent | spreadisplay3/app.py:195-202 | `all([login_url, username, password])` holds iff each of the three is set and non-empty |
| SpreadDisplay.Store.constructor | SpreadDisplay/app.py:12-33 | import seeds the record from the file or the defaults and starts with the existing snapshot directory or an empty one |
| SpreadDisplay.Store.UpdateLinks | SpreadDisplay/app.py:49-72 | same behaviour as the spreadisplay3 update: abort on the first rejected field, or save the merged record with its count |
| SpreadDisplay.Store.RenameMonitor | SpreadDisplay/app.py:74-107 | the reply is the rename check's verdict; success moves the value to the new id at the end of the key order and renames an existing snapshot, with no pause-and-remove step |
| SpreadDisplay.Store.AddMonitor | SpreadDisplay/app.py:109-130 | the reply is the add check's verdict; success appends the new id with the given or placeholder URL |
| SpreadDisplay.Store.RemoveSnapshot | SpreadDisplay/app.py:153-155 | the snapshot of the id is gone afterwards and every other snapshot stays |
| SpreadDisplay.Store.DeleteMonitor | SpreadDisplay/app.py:132-157 | the reply is the delete check's verdict; success removes the entry and its snapshot; the store never becomes empty |
| SpreadDisplay.Store.ResetLinks | SpreadDisplay/app.py:159-172 | the record becomes the defaults and snapshots are untouched |
| SpreadDisplay.Store.Proxy | SpreadDisplay/app.py:190-196 | an id gets a 404 exactly when it has no snapshot, and otherwise its own PNG |
| LinksEditor.DefaultLinks | vm/app.py:11-19 | the editor's default record is well formed with keys `tv1` … `tv6` in order, mapped to the YouTube, Facebook, Twitter, Instagram, Reddit and Netflix home pages |
| LinksEditor.Submitted | vm/app.py:51-52 | `if new_url` holds exactly when `request.form.get(tv)` is present and non-empty |
| LinksEditor.Overwritten | vm/app.py:50-53 | the editor's update keeps the key order and the key set |
| LinksEditor.OverwrittenValues | vm/app.py:50-53 | a key with a non-empty submitted value takes it, and any other key keeps its stored value |
| LinksEditor.AgreesWithValidatingUpdate | vm/app.py:50-53 | for every form, the editor's overwrite saves the same record as the merge of the validating update of the Flask servers; they differ only in that the latter refuses a rejected value |
| LinksEditor.OverwrittenUpToAt | vm/app.py:50-53 | after n iterations the first n keys hold their submitted value when given, and later keys are untouched |
| LinksEditor.Overwrite | vm/app.py:49-53 | the loop computes exactly the overwritten record |
| LinksEditor.Editor.constructor | vm/app.py:10-25 | import seeds the record from the file or the editor's defaults |
| LinksEditor.Editor.UpdateLinks | vm/app.py:47-55 | the saved record is the overwrite of the loaded one by the form |
| LinksEditor.Forwarded | vm/app.py:81 | a header is kept exactly when its lower-cased name differs from every excluded name |
| LinksEditor.ForwardedHeaders | vm/app.py:79-81 | a header is forwarded exactly when its lower-cased name is not one of the four hop-by-hop names |
| LinksEditor.ForwardedHeadersKeepOrder | vm/app.py:80-81 | the header filter keeps the headers' order |
| LinksEditor.ForwardedHeadersIgnoreCase | vm/app.py:79-81 | `Content-Encoding`, `Content-Length`, `Transfer-Encoding` and `CONNECTION` are dropped whatever their capitalisation and value, and `Content-Type` is kept |
| LinksEditor.RaisesForStatus | vm/app.py:74-77 | `raise_for_status` lets statuses 200 to 399 through and raises for a 404 or a 500 |
| LinksEditor.Editor.Proxy | vm/app.py:57-84 | a 404 exactly for an id that is missing or has an empty URL; a 500 exactly when the fetch fails or the status is 4xx or 5xx; otherwise the fetched status and body with the filtered headers |
| LinksEditor.Editor.ProxyFetchesOnlyTarget | vm/app.py:59-63 | the reply depends on the fetch only at the stored URL, and a 404 is decided before any fetch |
| WindowGeometry.Overlap | main.py:22-28 | the overlap along one axis is never negative, is positive exactly when both lengths are positive and each interval starts before the other ends, and never exceeds a non-negative length |
| WindowGeometry.IntersectionArea | main.py:21-29 | the shared area is never negative |
| WindowGeometry.IntersectionPositive | main.py:21-29 | the area is positive exactly when the rectangles overlap on both axes |
| WindowGeometry.IntersectionSymmetric | main.py:21-29 | the area does not depend on the order of the arguments |
| WindowGeometry.DisjointHaveNoIntersection | main.py:21-29 | rectangles that are apart or only touch share no area |
| WindowGeometry.IntersectionBounded | main.py:21-29 | the shared area is at most either rectangle's own area |
| WindowGeometry.SelfIntersection | main.py:21-29 | a rectangle shares all of its area with itself |
| WindowGeometry.FindMonitorForWindow | main.py:32-45 | `None` exactly when no monitor overlaps the window; otherwise the first index with the largest positive overlap |
| WindowGeometry.FilterWindows | main.py:102-106 | an empty filter returns the list unchanged; otherwise exactly the windows whose lower-cased title contains the lower-cased text; never longer than the list |
| WindowGeometry.FilterWindowsKeepsOrder | main.py:106 | the filter keeps the list's order |
| WindowGeometry.EmptyFilterMatchesAll | main.py:103-106 | the short-cut for an empty filter agrees with the comprehension |
| TvRemote.ProxyUrl | tizen/tvapp/js/main.js:45 | the viewer address is the proxy prefix of the server followed by exactly the id |
| TvRemote.ProxyUrlInjective | tizen/tvapp/js/main.js:45 | different ids get different viewer addresses |
| TvRemote.IndexOf | tizen/tvapp/js/main.js:55 | `indexOf` gives the first position of the id, or -1 exactly when the id is absent or nothing is selected |
| TvRemote.IndexOfDistinct | tizen/tvapp/js/main.js:55 | among distinct ids each id's index is its position |
| TvRemote.JsRem | tizen/tvapp/js/main.js:57-60 | JavaScript's `%` lies strictly between -n and n, differs from the dividend by a multiple of n, agrees with the mathematical remainder on non-negative dividends and is non-positive on negative ones |
| TvRemote.RightIndex | tizen/tvapp/js/main.js:57 | the index ArrowRight computes is always a valid position |
| TvRemote.LeftIndex | tizen/tvapp/js/main.js:60 | the index ArrowLeft computes is always a valid position |
| TvRemote.RightIndexMoves | tizen/tvapp/js/main.js:56-58 | ArrowRight moves to the next index, wrapping to 0 at the end and from no selection |
| TvRemote.LeftIndexMoves | tizen/tvapp/js/main.js:59-61 | ArrowLeft moves to the previous index, wrapping to the last from 0; with nothing selected it moves to the second-to-last (or the only) index |
| TvRemote.LeftRightInverse | tizen/tvapp/js/main.js:56-61 | left undoes right and right undoes left |
| TvRemote.Step | tizen/tvapp/js/main.js:52-63 | any other key, or no ids, leaves the selection alone; an arrow always selects one of the ids |
| TvRemote.StepRightLeft | tizen/tvapp/js/main.js:52-63 | from a selected id, right then left, or left then right, returns to it |
| TvRemote.Highlight | tizen/tvapp/js/main.js:42-44 | after loading an id exactly its button is highlighted, and a message has no buttons |
| TvRemote.TvApp.constructor | tizen/tvapp/js/main.js:7-8 | the page starts with no ids and no selection |
| TvRemote.TvApp.DisplayLinks | tizen/tvapp/js/main.js:29-37 | the ids become the keys of the fetched object, in order, with one button each and none highlighted |
| TvRemote.TvApp.LoadTv | tizen/tvapp/js/main.js:40-46 | selects the id, highlights its button and points the viewer at its proxy URL |
| TvRemote.TvApp.FetchLinks | tizen/tvapp/js/main.js:10-27 | a failed fetch shows an error and changes nothing else; otherwise the ids are shown and the first one selected and loaded, or a no-links message is shown; a selection always exists once there are ids |
| TvRemote.TvApp.KeyDown | tizen/tvapp/js/main.js:52-63 | the new selection is `Step` of the old one; an arrow with ids loads it; the ids never change and a selection is kept |

## Left out

- The snapshot worker (`take_snapshot`, `snapshot_worker`, the driver calls of `login_to_grafana`): headless-browser I/O, sleeps and an endless loop; only its two pure tests are modelled.
- File I/O is left out. `load_links`/`save_links` become reads and writes of the `links` field, and `os.path.exists`/`os.rename`/`os.remove` become operations on the `snaps` set. A rename onto an existing `<new>.png` overwrites it, as POSIX `rename` does.
- Concurrency between the Flask handlers and the snapshot worker is left out. Each handler is one atomic step. The one interleaving the code guards against, a snapshot written during the rename pause, is the `snapDuringPause` parameter.
- Request bodies that are not JSON objects, and JSON values that are not strings (`"url": null`, `"name": 5`), are not modelled: form and JSON fields are `Option<string>`. A numeric name such as 5 passes `not monitor_name` (spreadisplay3/app.py:119) and is never equal to a string key, so it would pass the duplicate check at spreadisplay3/app.py:124.
- OS errors of `os.rename` and `os.remove` are not modelled. A new name such as `a/b` would make `os.rename` raise and the handler answer with a 500, although the record was already saved under the new name at spreadisplay3/app.py:98 and `<old>.png` stays.
- The ordering of keys by JSON serialisation (`jsonify` may sort keys; JavaScript's `Object.keys` puts integer-like keys first) is not modelled; `Object.keys` is taken as the stored insertion order.
- `admin_panel` and `api_links` are left out: they only render or serialise the record.
- Flash messages and JSON replies are modelled by their kind and data (`UpdateFlash`, `Reply`, `Reason`), not by their Polish text.
- `Text.Lower`: lowers ASCII letters only; Python's `str.lower` and full Unicode case mapping are not modelled. This affects `WindowGeometry.FilterWindows`: a window titled "ŁÓDŹ" matches the filter "łódź" in main.py but not in the model. `LinksEditor.ForwardedHeaders` is unaffected, since HTTP header names are ASCII tokens.
- The GUI of `main.py` (Tkinter widgets, `get_monitors_with_names`, `get_window_titles`, `move_window_to_monitor`, `close_window`) and the window handles are left out; only the three pure functions are modelled.
- `LinksEditor.Editor.Proxy` takes the HTTP fetch as a parameter: the network, the 10-second timeout and the logging are not modelled, and the response body is bytes passed through unchanged.
- The TV app's DOM is reduced to the container's content and the viewer address, and `console.log` is left out. The promise chain runs as one step, with the fetch's outcome as a parameter (`None` for a network error, a non-OK status or a bad JSON body).
- The 10-second iframe auto-refresh (`setInterval`) reloads the same address and changes no modelled state, so it is left out.
- `tizen/server.py` and `SpreadDisplay/static/js/admin.js` are not part of this model.
