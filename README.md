# AR-View core, modelled in Dafny

AR-View is a single-page React application. It keeps a catalog of 3D models
(`.glb`, `.gltf`, `.usdz`) in the `models/` directory of a GitHub repository.
The project models the application's core:

- **App.tsx.** The sync classifies the Contents-API listing reply (404, 401,
  403, other errors, a non-array body, a thrown error). It then turns the model
  files into catalog records: it filters by extension, derives a title from the
  file name, uses the blob sha as the id, and reverses the order. App.tsx also
  holds the effects and handlers that update state, the reading and removal of
  `modelId` in the address, and the choice of the one screen rendered (viewer,
  not found, spinner, error, setup needed or gallery).
- **GitHubSettingsModal.tsx.** The initial fields, the prefill from the current
  configuration, and the two checks `handleSave` runs.
- **ModelUploader.tsx.**
  - `processFile`: the extension and size screening.
  - The FileReader handlers, as an ordered sequence of events.
  - `handlePublishClick`: the input and configuration checks, the content taken
    from the data URL, the file name built from the timestamp, the `PUT` request
    of the contents API, and the classification of errors.
- **ModelGallery.tsx.** The search filter and the three-way display.
- **ModelCard.tsx.** `handleShare`, which sets `modelId` in a copy of the
  current address.

The browser pieces the handlers lean on are modelled too:

- the `URLSearchParams` list: `get`, `set` and `delete`;
- the `application/x-www-form-urlencoded` serializer and parser of the WHATWG
  URL Standard (section 5), with the UTF-8 encoder and decoder of the WHATWG
  Encoding Standard;
- the JavaScript string built-ins used: `trim`, `toLowerCase`, `startsWith`,
  `endsWith`, `includes`, `lastIndexOf`, `slice`, a global one-character
  `replace`, `split`, and `${n}` for a non-negative integer.

The modules, one per file:

- `JsString`: the string built-ins.
- `Seqs`: `reverse`, `map`, `filter`, `indexOf`, `split` and `join` over sequences.
- `Types`: `ModelData`, `GitHubConfig` and truthiness.
- `FormUrlEncoded`: UTF-8 and the urlencoded query format.
- `SearchParams`: the parameter list, and a `Url` class whose `searchParams`
  updates rewrite its query.
- `Catalog`: the pure part of the sync.
- `App`: the screen choice, plus the `AppState` class with its handlers.
- `GitHubSettings`, `ModelUploader` (with the `Uploader` class), `ModelGallery`
  and `ModelCard`: one module per component.
- `Pipeline`: lemmas and a method that connect the components. A published file
  comes back listed with the title the user's file name gives. A shared link
  opens its model.

Network replies, the clock and the stored configuration are parameters of the
operations that use them. No part of the model makes a request.

## Model

| member | source | states |
|---|---|---|
| JsString.Decimal | components/ModelUploader.tsx:83 | `${Date.now()}` is a non-empty run of decimal digits, with no leading zero unless the number is 0 |
| JsString.DecimalRoundTrip | components/ModelUploader.tsx:83 | reading the numeral back gives the number it was made from |
| JsString.DecimalInjective | components/ModelUploader.tsx:83 | distinct timestamps give distinct numerals |
| JsString.ContainsIff | components/ModelGallery.tsx:28-31 | `includes` holds exactly when the term occurs at some position |
| JsString.ContainsEmpty | components/ModelGallery.tsx:28-31 | the empty term is included in every text |
| JsString.ContainsSuffix | components/ModelUploader.tsx:117 | a text ending in `t` includes `t` |
| JsString.ContainsInSuffix | components/ModelUploader.tsx:117 | what the end of a text includes, the whole text includes |
| JsString.NotContainsWithoutFirst | components/ModelUploader.tsx:117 | a term whose first character does not occur in the text is not included in it |
| JsString.ToLower | components/ModelGallery.tsx:29-30 | lower-casing keeps the length |
| JsString.ToLowerIdempotent | components/ModelGallery.tsx:29-30 | lower-casing twice is lower-casing once |
| JsString.TrimStart | components/GitHubSettingsModal.tsx:34 | the result is a suffix; everything removed is white space; the result starts with a non-space |
| JsString.TrimEnd | components/GitHubSettingsModal.tsx:34 | the result is a prefix; everything removed is white space; the result ends with a non-space |
| JsString.TrimBlank | components/GitHubSettingsModal.tsx:34 | `!s.trim()` holds exactly for text made only of white space |
| JsString.TrimUnchanged | components/GitHubSettingsModal.tsx:39 | text with no white space at either end is left as it is |
| JsString.ReplaceAll | components/ModelUploader.tsx:83 | replacing one character by another keeps the length |
| JsString.ReplaceAllRemoves | components/ModelUploader.tsx:83 | after the replacement no space is left, and every other character stays in place |
| JsString.LastIndexOf | components/ModelUploader.tsx:25 | the result is -1 or a position holding the character, and no later position holds it |
| JsString.Slice | components/ModelUploader.tsx:25 | `slice(k)` gives the suffix from position `k`; a negative `k` counts from the end, and a start past either end gives the empty text or the whole text |
| Seqs.FirstWhere | App.tsx:156 | the first position whose element passes the test, or -1 when none does; no earlier element passes it |
| Seqs.Reverse | App.tsx:93 | reversing keeps the length |
| Seqs.ReverseReverse | App.tsx:93 | reversing twice gives the original |
| Seqs.ReverseMultiset | App.tsx:93 | reversing keeps the same elements with the same multiplicities |
| Seqs.Map | App.tsx:80-92 | mapping keeps the length |
| Seqs.Filter | App.tsx:78 | filtering never lengthens |
| Seqs.FilterMultiset | App.tsx:78 | the filter keeps each element satisfying the predicate with its multiplicity, and drops the others |
| Seqs.FilterMembers | App.tsx:78 | an element is kept exactly when it occurs and satisfies the predicate |
| Seqs.FilterIsSubsequence | App.tsx:78 | the filter keeps the order |
| Seqs.FilterSatisfies | components/ModelGallery.tsx:28-31 | every kept element satisfies the predicate |
| Seqs.FilterKeepsAll | components/ModelGallery.tsx:28-31 | a sequence whose every element satisfies the predicate is kept whole |
| Seqs.FilterIdempotent | components/ModelGallery.tsx:28-31 | filtering twice is filtering once |
| Seqs.FilterAgree | components/ModelGallery.tsx:28-31 | predicates that agree on every element filter alike |
| Seqs.ReverseMapAt | App.tsx:80-93 | position `i` of the reversed map is the image of the element `i` places from the end |
| Seqs.MapReverseHas | App.tsx:80-93 | every element has its image in the reversed map |
| Seqs.MapReverseSource | App.tsx:80-93 | every element of the reversed map is the image of an element |
| Seqs.IndexOf | components/ModelUploader.tsx:78 | the first position holding the element, or -1 when there is none |
| Seqs.Split | components/ModelUploader.tsx:78 | `split` always gives at least one piece |
| Seqs.SplitFirst | components/ModelUploader.tsx:78 | the first piece is the text before the first separator, and the rest splits what follows it |
| Seqs.PieceThenSeparator | App.tsx:117 | the first separator of `a + [sep] + b` is the one after `a` when `a` has none |
| Seqs.SplitJoin | App.tsx:117 | splitting the join of pieces without the separator gives those pieces back |
| FormUrlEncoded.Utf8Char | components/ModelCard.tsx:15 | each code point is encoded as 1 to 4 bytes |
| FormUrlEncoded.Utf8CharDecode | App.tsx:117 | decoding the encoding of one code point, followed by more bytes, gives that code point first |
| FormUrlEncoded.Utf8RoundTrip | App.tsx:117 | UTF-8 decoding undoes UTF-8 encoding |
| FormUrlEncoded.HexDigit | components/ModelCard.tsx:15 | the upper-case hex digit of a nibble reads back as that nibble |
| FormUrlEncoded.EncodedBytes | components/ModelCard.tsx:15 | serialized bytes are ASCII, and contain no `&` and no `=` |
| FormUrlEncoded.PercentRoundTrip | App.tsx:117 | percent-decoding undoes the byte serializer |
| FormUrlEncoded.TextRoundTrip | App.tsx:117 | decoding a name or value undoes its encoding |
| FormUrlEncoded.SerializedIsAscii | components/ModelCard.tsx:15-16 | a serialized query is ASCII text |
| FormUrlEncoded.PiecesRoundTrip | App.tsx:117 | parsing the encoded `name=value` pieces gives the pairs back |
| FormUrlEncoded.ParseSerialize | App.tsx:117 | parsing a serialized query gives back exactly the pairs serialized, in order |
| SearchParams.FirstIndex | App.tsx:118 | the position of the first pair with the name, or -1 when there is none |
| SearchParams.DeleteAppend | App.tsx:160 | deleting from two lists joined is deleting from each |
| SearchParams.DeleteAbsent | App.tsx:160 | deleting an absent name leaves the list unchanged |
| SearchParams.CountAppend | components/ModelCard.tsx:15 | the count of a name adds up over joined lists |
| SearchParams.CountZero | components/ModelCard.tsx:15 | the count of a name is 0 exactly when no pair has it |
| SearchParams.GetDelete | App.tsx:160 | after `delete`, `get` of that name is null, and `get` of every other name is unchanged |
| SearchParams.DeleteRemovesAll | App.tsx:160 | after `delete` the name has no pair left, and a second `delete` changes nothing |
| SearchParams.FirstIndexIs | App.tsx:118 | with no earlier pair of the name, the first index is `k` |
| SearchParams.GetAfterSet | components/ModelCard.tsx:15 | after `set`, `get` of the name is the value set |
| SearchParams.SetLeavesOne | components/ModelCard.tsx:15 | after `set`, exactly one pair has the name |
| SearchParams.SetKeepsOthers | components/ModelCard.tsx:15 | `set` keeps the other pairs, in their order |
| SearchParams.GetOtherAfterSet | components/ModelCard.tsx:15 | `set` leaves `get` of every other name unchanged |
| SearchParams.Url.constructor | components/ModelCard.tsx:14 | `new URL(href)` keeps the address, and parses its query into the list |
| SearchParams.Url.SetParam | components/ModelCard.tsx:15 | the list is updated by `set`, and the query becomes its serialization |
| SearchParams.Url.DeleteParam | App.tsx:160 | the list is updated by `delete`, and the query becomes its serialization |
| Catalog.CaughtMessage | App.tsx:97-100 | the error shown is never empty; an empty message falls back to the default text |
| Catalog.ListingOutcome | App.tsx:54-100 | 404 and a non-array body give an empty catalog; 401 and 403 give their fixed messages; other failing statuses give a status message, except that a `null` error body gives the message of the `TypeError` reading it throws; a listing gives the catalog of its entries; a rejected request and an ok reply whose body does not parse give the caught message; any failure message is non-empty |
| Catalog.StatusMessageShape | App.tsx:65-68 | for an error body other than `null`, the message is `GitHub API Error (<status>): ` followed by GitHub's message, or by the fallback text when GitHub sent none |
| Catalog.DigitRunLength | App.tsx:82 | the length of the leading run of digits |
| Catalog.DeriveTitle | App.tsx:81-85 | a derived title has no `_` and no `-` |
| Catalog.NoOrderPrefix | App.tsx:82 | a name whose leading digits, if any, are not followed by `-` is left as it is, as `3dcar.glb` is |
| Catalog.StripNumeral | App.tsx:82 | a numeral and `-` at the start are removed |
| Catalog.DigitRunOfNumeral | App.tsx:82 | the digit run of a numeral followed by a non-digit is the numeral |
| Catalog.StripKnownExtension | App.tsx:83 | a supported extension at the end is removed |
| Catalog.TitleExampleWithPrefix | App.tsx:81-85 | `003-Sci_Fi-Rover.glb` is titled `Sci Fi Rover` |
| Catalog.TitleExampleWithoutPrefix | App.tsx:81-85 | `lamp.gltf` is titled `lamp` |
| Catalog.ToRecord | App.tsx:87-92 | a record takes the sha as id and the download URL, and has no description |
| Catalog.ModelFilesExact | App.tsx:78 | the filter keeps every model file with its multiplicity, drops everything else, and keeps the listing order |
| Catalog.ModelFilesMembers | App.tsx:78 | an entry is kept exactly when it is listed and has a model extension |
| Catalog.CatalogOrder | App.tsx:80-93 | record `i` of the catalog is the record of model file `n-1-i` |
| Catalog.CatalogHasEveryModelFile | App.tsx:78-93 | every listed model file appears in the catalog |
| Catalog.RecordSource | App.tsx:78-93 | a catalog record names the listed model file it comes from |
| Catalog.CatalogHasOnlyModelFiles | App.tsx:78-93 | every catalog record comes from a listed model file |
| Catalog.FilesOfExample | App.tsx:78 | the filter keeps `a.glb` and `c.usdz` of `a.glb, b.png, c.usdz` |
| Catalog.CatalogExample | App.tsx:78-93 | the listing `a.glb, b.png, c.usdz` gives the catalog `c, a` |
| App.FindIndex | App.tsx:156 | the position of the first model with the id, or -1 when there is none |
| App.FindByUniqueId | App.tsx:156 | in a catalog of distinct ids, looking up a model's id finds that model |
| App.SelectView | App.tsx:156-231 | the viewer shows exactly when a non-empty id is in the catalog; otherwise not-found shows once loading is over; otherwise the main page shows, with the spinner, the error, the setup prompt and the gallery in that precedence; the viewer shows the first model with the id, and the error screen shows the sync error |
| App.EmptyIdIsNoId | App.tsx:156 | an empty `modelId` renders like no `modelId` |
| App.AppState.constructor | App.tsx:14-26 | the initial state: no models, loading, no error, no id, the stored configuration |
| App.AppState.BeginSync | App.tsx:35-43 | without owner or repository only loading ends; otherwise loading starts with the catalog and error cleared, and the spinner shows whatever the address names |
| App.AppState.CompleteSync | App.tsx:45-104 | loading ends; a loaded catalog replaces the models and keeps the error; a failure empties the catalog and shows its message |
| App.AppState.FetchModelsFromRepo | App.tsx:35-104 | loading ends; without owner or repository nothing else changes; otherwise the catalog and the error are those of the listing outcome |
| App.AppState.SyncOnConfigChange | App.tsx:106-112 | loading ends; without a configuration naming an owner and a repository the catalog and error stay as they were; with one, they are the listing outcome |
| App.AppState.HandlePublish | App.tsx:140-144 | with a configuration, the sync runs again, and changes the catalog and error only when the configuration names an owner and a repository; without one, nothing changes |
| App.AppState.HandleUrlChange | App.tsx:115-119 | the current id is `get('modelId')` of the address's query |
| App.AppState.HandleCloseViewer | App.tsx:158-163 | every `modelId` leaves the address, which keeps its other pairs, page and fragment; the id is cleared; the main page shows |
| App.AppState.HandleSaveSettings | App.tsx:146-150 | the saved configuration becomes current |
| GitHubSettings.ValidateSettings | components/GitHubSettingsModal.tsx:31-45 | an accepted configuration is the fields exactly as typed; a rejection carries one of the two messages |
| GitHubSettings.RequiredFields | components/GitHubSettingsModal.tsx:34-37 | the required-fields message shows exactly when owner, repo, PAT or branch is blank |
| GitHubSettings.TokenFormat | components/GitHubSettingsModal.tsx:39-44 | with the fields filled, the format message shows exactly when the trimmed PAT has neither `ghp_` nor `github_pat_` as a prefix, and otherwise the configuration is saved |
| GitHubSettings.AcceptedIsValid | components/GitHubSettingsModal.tsx:31-45 | a saved configuration has every required field filled and a PAT with an accepted prefix |
| GitHubSettings.RejectsUnknownPrefix | components/GitHubSettingsModal.tsx:39-42 | the PAT `xyz_abc` is refused with the format message |
| GitHubSettings.SettingsForm.constructor | components/GitHubSettingsModal.tsx:14-29 | the defaults `client96163525-collab`, `AR-View` and `main` without a current configuration, and the prefill with one |
| GitHubSettings.SettingsForm.Prefill | components/GitHubSettingsModal.tsx:21-29 | the fields copy the current configuration, with `main` for an empty branch and an empty public URL for a missing one |
| GitHubSettings.SettingsForm.HandleSave | components/GitHubSettingsModal.tsx:31-45 | the error and the configuration passed to `onSave` are those the validation gives |
| ModelUploader.Screen | components/ModelUploader.tsx:24-33 | a file is accepted exactly when its extension is supported and its size is at most 50 MiB; otherwise the format or the size message shows |
| ModelUploader.SupportedIff | components/ModelUploader.tsx:24-27 | a name is supported exactly when it has a dot and the text from its last dot, lower-cased, is a model format |
| ModelUploader.SupportedByExtension | components/ModelUploader.tsx:24-27 | a name ending in a model extension, written in any case, is supported |
| ModelUploader.SizeBoundary | components/ModelUploader.tsx:28 | 52428800 bytes are accepted; one more byte is refused with the size message |
| ModelUploader.FormatCheckedFirst | components/ModelUploader.tsx:27-52 | an unsupported name gets the format message whatever its size |
| ModelUploader.ReadFailureMessageLost | components/ModelUploader.tsx:36-46 | as written, a failed read ends with no error shown, the file taken and no preview |
| ModelUploader.ReadFailureReported | components/ModelUploader.tsx:36-46 | when `onloadend` ignores a missing result, a failed read shows the read-failure message and changes nothing else |
| ModelUploader.ReadSuccessAgrees | components/ModelUploader.tsx:36-43 | after a successful read, both handler versions take the file and its data URL, clear the error and show the notice |
| ModelUploader.UniqueFileNameHasNoSpace | components/ModelUploader.tsx:83 | a committed file name has no space |
| ModelUploader.TimestampRecoverable | components/ModelUploader.tsx:83 | the text before the first `-` of the file name is the timestamp, in decimal |
| ModelUploader.DistinctInstantsDistinctNames | components/ModelUploader.tsx:83 | publishes at different instants commit to different names |
| ModelUploader.SameInstantCollision | components/ModelUploader.tsx:83 | at one instant, `a b.glb` and `a_b.glb` commit to the same name |
| ModelUploader.FirstCommaAt | components/ModelUploader.tsx:78 | the first comma of `a,b` is the one after `a` when `a` has none |
| ModelUploader.ContentOfDataUrl | components/ModelUploader.tsx:78-81 | the content sent for a base64 data URL is exactly its payload |
| ModelUploader.NoCommaNoContent | components/ModelUploader.tsx:78-81 | a data URL without a comma has no content |
| ModelUploader.CommitFor | components/ModelUploader.tsx:84-97 | the request goes on the configured branch or `main`, with the content, and authorizes with `token ` followed by the access token |
| ModelUploader.CommitTargetsFile | components/ModelUploader.tsx:84 | the request URL starts with the configured owner and repository under `https://api.github.com/repos/` and ends with `/contents/models/<file name>` |
| ModelUploader.CommitMessageNamesFile | components/ModelUploader.tsx:94 | the commit message starts with `feat: add 3D model '` and names the committed file |
| ModelUploader.UploadError | components/ModelUploader.tsx:86-103 | the request path throws exactly when the reply is not ok; a rejected request, a body that is not JSON and a `null` body throw their own error |
| ModelUploader.UploadMessageShape | components/ModelUploader.tsx:99-102 | a non-ok JSON reply throws `GitHub API Error: ` followed by GitHub's message, or `Failed to upload.` when there is none |
| ModelUploader.ShownErrorPrefix | components/ModelUploader.tsx:115-121 | every caught error is shown starting with `Upload failed: `, and one not mentioning `Not Found` is shown in full after it |
| ModelUploader.NotFoundShowsHint | components/ModelUploader.tsx:100-118 | a non-ok reply whose message includes `Not Found` is shown as the settings hint |
| ModelUploader.MissingContentShown | components/ModelUploader.tsx:78-120 | a data URL without content is reported with its own message |
| ModelUploader.PublishOutcomeCases | components/ModelUploader.tsx:61-125 | refusal exactly when the form is incomplete or no configuration is stored, with the matching message; a data URL without content fails before any request; otherwise the commit request is sent, and the outcome is published exactly when the reply is ok; every failure message starts with `Upload failed: ` |
| ModelUploader.RequestIgnoresTitle | components/ModelUploader.tsx:83-98 | the title typed does not change what is sent |
| ModelUploader.Uploader.constructor | components/ModelUploader.tsx:12-19 | the empty initial form |
| ModelUploader.Uploader.EditTitle | components/ModelUploader.tsx:12 | the title becomes the text typed |
| ModelUploader.Uploader.EditDescription | components/ModelUploader.tsx:13 | the description becomes the text typed |
| ModelUploader.Uploader.ProcessFile | components/ModelUploader.tsx:22-54 | a refused file clears the selection and shows the screening message; an accepted file starts a read and changes nothing yet; no file changes nothing |
| ModelUploader.Uploader.OnReadError | components/ModelUploader.tsx:44-46 | the read-failure message shows |
| ModelUploader.Uploader.OnLoadEnd | components/ModelUploader.tsx:36-43 | `onloadend` as the component installs it: the file and `reader.result` are taken, the error cleared and the notice shown, whether or not the read produced a result |
| ModelUploader.Uploader.FinishRead | components/ModelUploader.tsx:35-47 | the form after a read is that of its events handled in order by the component's own handlers, so a failed read loses its message |
| ModelUploader.Uploader.UploadSuccessTimer | components/ModelUploader.tsx:42 | the notice is hidden |
| ModelUploader.Uploader.TryCommit | components/ModelUploader.tsx:77-115 | the content is cut from the data URL, the request is the commit of the unique name, the block throws exactly the upload error, and only an ok reply clears the form |
| ModelUploader.Uploader.HandlePublishClick | components/ModelUploader.tsx:61-125 | the request sent, the `onPublish` call and the new form are those of the publish outcome: a refusal or failure keeps the form; a publish clears it |
| ModelGallery.FilterModels | components/ModelGallery.tsx:28-31 | every model kept matches the term in its title or description |
| ModelGallery.FilterModelsMultiset | components/ModelGallery.tsx:28-31 | the filter keeps each matching model with its multiplicity and drops the others; a model is shown exactly when it is in the catalog and matches; the catalog order is kept |
| ModelGallery.FilterModelsIdempotent | components/ModelGallery.tsx:28-31 | filtering twice is filtering once |
| ModelGallery.EmptyTermKeepsAll | components/ModelGallery.tsx:28-31 | the empty term keeps every model |
| ModelGallery.CaseInsensitive | components/ModelGallery.tsx:28-31 | the term's case does not matter |
| ModelGallery.GalleryDisplay | components/ModelGallery.tsx:53-71 | `No Models Yet` exactly for an empty catalog; `No Models Found` exactly when a non-empty term matches nothing; otherwise the grid of the filtered models |
| ModelGallery.NoTermShowsAll | components/ModelGallery.tsx:53-71 | with no term, a non-empty catalog shows in full |
| ModelGallery.GridNotEmpty | components/ModelGallery.tsx:59-71 | the grid is never empty |
| ModelCard.HandleShare | components/ModelCard.tsx:13-16 | the link keeps the page and fragment; it reads back with exactly one `modelId`, which is the model's id; every other parameter is kept in order |
| Pipeline.SeparatorsAsSpaces | App.tsx:84-85 | showing separators as spaces keeps the length |
| Pipeline.NoSpaceInExtension | components/ModelUploader.tsx:24-27 | a model extension in any case has no space |
| Pipeline.UniqueFileNameParts | components/ModelUploader.tsx:83 | the committed name is the timestamp, `-`, the base with `_` for spaces, and the extension |
| Pipeline.PublishedTitle | App.tsx:81-85 | a model published as `base.glb` is listed with the title `base`, each space, `_` and `-` shown as a space |
| Pipeline.EndsWithLast | App.tsx:78 | a text ending in `p` ends with the last character of `p` |
| Pipeline.ExtensionListed | App.tsx:78 | the listing filter keeps a name with a model extension exactly when the extension is in lower case |
| Pipeline.ListedOnlyInLowerCase | App.tsx:78 | the uploader accepts `Rover.GLB`, but the file it commits is never listed |
| Pipeline.FormatsInLowerCase | components/ModelUploader.tsx:24 | the supported formats are written in lower case |
| Pipeline.PublishedModelInCatalog | App.tsx:78-93 | a committed file, once listed, is in the catalog with its sha, the title from its name and its URL |
| Pipeline.SharedLinkOpensModel | components/ModelCard.tsx:13-16 | a shared link reads back as the model's id, and once loading is over the viewer shows that model |
| Pipeline.ShownOnceLoaded | App.tsx:156-167 | once loading is over, a non-empty id shows a model with that id when the catalog has one, the very model when ids are distinct, and the not-found screen otherwise |
| Pipeline.OpenSharedLink | App.tsx:115-167 | opening a shared link shows the spinner while the catalog loads; then it shows the viewer for a listed model and the not-found screen otherwise |

## Left out

- Network: `fetch` and `response.json()` are not modelled. Each request's reply is an input: a status with a parsed body, an unparseable body, or a rejected request. A `null` body, whose `message` cannot be read, carries the text of the resulting `TypeError` as an input, since that wording belongs to the JavaScript engine.
- Storage: `localStorage` and `sessionStorage` are not modelled. The stored configuration is an `Option` parameter, and `JSON.parse` of it is taken to succeed. Writing the configuration at App.tsx:148 is not modelled.
- Authentication: the password gate at App.tsx:13 and 28-33, 135-138 and 152-154 is taken as passed. PasswordProtection is not part of this model.
- Timing: the 300 ms search debounce, the 1000 ms delay before the resync after a publish, and the 2 s resets of the notices are not modelled. The gallery filters by the debounced term. The delayed calls are their own operations: `HandlePublish` and `UploadSuccessTimer`.
- Concurrency: overlapping syncs, and a publish racing a read, are not modelled. Each operation runs to completion.
- Events: the `popstate` listener at App.tsx:121-126 is not modelled. `HandleUrlChange` is the handler it would run. `pushState` is modelled as a new `location`.
- Rendering: drag-and-drop handlers, logging and the markup are not modelled. Header, FullScreenModelViewer, ARQRCodeModal and the icons are not part of this model. The settings dialog's open and closed flags are not modelled either. Clearing the file input after a successful publish (components/ModelUploader.tsx:112-114) touches only the DOM element and is not modelled.
- Clipboard: `navigator.clipboard.writeText` and the `copied` flag of ModelCard are not modelled. `HandleShare` returns the link that would be copied.
- FileReader: the reader's base64 encoding is not modelled. The data URL is an input of `FinishRead`.
- Addresses: a `Location` is the text before the query, the query without its `?`, and the fragment. URL parsing beyond that split is not modelled.
- JsString.ToLower: lower-cases ASCII letters only. The file-extension and search comparisons therefore ignore case only for ASCII letters.
- SearchParams.Get: the model does not separate a missing parameter from an unset URL. `get` of an absent name is `None`, as `null` is in the source.
- Catalog.ListingOutcome: assumes every listed entry has a `name`, a `sha` and a `download_url`. An entry without a name would throw in the source.
- Behaviour of the code worth noting, which the model follows:
  - the listing request sends no branch reference, so the catalog is read from the repository's default branch;
  - the configured public URL is read only to prefill the settings form;
  - a share link is the current address with `modelId` set, so other parameters are kept;
  - the card ignores the configuration it is passed.

## Findings

| source | as written | input that shows it | evidently intended | confidence | as-written member | corrected member |
|---|---|---|---|---|---|---|
| components/ModelUploader.tsx:36-46 | `onloadend` always takes the file and `reader.result` and clears the error. The File API fires it after `error` as well, so the read-failure message is cleared at once, and the file is kept with a null preview. | a supported file of less than 50 MiB whose read fails | a failed read shows "Failed to read the file. Please try again." and leaves the form as it was | not executed | ModelUploader.ReadFailureMessageLost | ModelUploader.ReadFailureReported |
