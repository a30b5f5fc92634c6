# WOPI host of the EGroupware–Collabora integration, modelled in Dafny

EGroupware opens office documents in Collabora Online through the WOPI
protocol. EGroupware is the WOPI *host*: Collabora calls back into EGroupware to
read file information, take and release locks, save contents and "save as".
This project models that host side and proves properties of the model:

- **`Files`** (`files.dfy`): the WOPI Files endpoint.
  - The dispatcher on the `X-WOPI-Override` header.
  - Request-header normalisation from the server variables.
  - CheckFileInfo.
  - The lock family: Lock / UnlockAndRelock, GetLock, RefreshLock, Unlock.
  - PutFile.
  - PutRelativeFile (Save As) and its file-name cleaner with the " (N)" de-duplication loop.
- **`Bo`** (`bo.dfy`): the access token handed to the editor page (`get_token`), the editor action URL (`get_action_url`), and `is_versioned`.
- **`Router`** (`router.dfy`): the WOPI entry point. It filters the id, derives the endpoint class, answers 404 for an unknown endpoint, and decides when the JSON response envelope is sent. It also filters the access token.
- **`Settings`** (`settings.dfy`): the settings endpoint. It covers method dispatch, the settings root of each type, grouping of the found files into buckets, and the upload target and its outcome.
- **`Hooks`** (`hooks.dfy`): the CSP frame sources, and the open handler that keeps only the "edit" discovery entries.
- **`Ui`** (`ui.dfy`): the file-manager hook's gate, the free-name loop of `merge_edit`, and the outcome of `ajax_createNew`.
- **`Vfs`** (`vfs.dfy`): the host state a request works on. A class `Server` holds:
  - file contents by path and the existing directories;
  - the lock store (path → token);
  - the writable and readable paths;
  - the paths where the storage layer refuses writes;
  - the response status and headers.

  Its methods carry the contract the app relies on:
  - a lock is granted on an unlocked path, or on a refresh by the holder;
  - an unlock succeeds only with the holder's token;
  - a write stores the body unless the storage refuses it.
- **`Naming`** (`naming.dfy`): the " (N)" retry names shared by `clean_filename` and `merge_edit`. It proves that the retry loop ends and finds the first free name.
- **`Php`** (`php.dfy`): the PHP library functions the code uses, written over Dafny strings. These are truthiness, `basename`/`dirname`/`pathinfo`, decimal printing, `str_replace`, `explode`/`implode`, `urlencode` over UTF-8 bytes with its decoding, the `filter_var` sanitisers, and `(int)` casts.

The request handlers are methods on or over `Vfs.Server`. They carry `modifies`
clauses and state the complete new state (status, files, locks, headers). Pure
decisions are functions; for example, the Save As decision is `Files.SaveAsPlan`.
Lemmas state the properties that relate several calls or hold for all inputs.

## Model

| member | source | states |
|---|---|---|
| Files.NormaliseHeaders | src/Wopi/Files.php:98-112 | The header loop builds exactly `HeaderTable` of the server variables, and every key in the table comes from some HTTP_/CONTENT_ variable. |
| Files.HeaderName | src/Wopi/Files.php:104-108 | A header name derived from a server variable has no upper-case letter. |
| Files.LastWinsKeys | src/Wopi/Files.php:102-110 | When variables are stored in order under their keys, the table holds exactly the keys that some variable has. |
| Files.LastWinsValue | src/Wopi/Files.php:102-110 | When variables are stored in order under their keys, a key holds the value of the last variable with that key. |
| Files.HeaderTableKeys | src/Wopi/Files.php:102-110 | A name is in the header table iff some HTTP_/CONTENT_ variable carries it. |
| Files.HeaderTableLast | src/Wopi/Files.php:102-110 | A header's value is the masked value of the last variable that carries it. |
| Files.HeaderTableLowerCase | src/Wopi/Files.php:107 | Every key of the header table is in lower case. |
| Files.Header | src/Wopi/Files.php:113-122 | The lookup answers the value under the exact name, else under its lower-case form, and null iff neither is present. |
| Files.HeaderFindsVariable | src/Wopi/Files.php:96-122 | Asking for a header in any capitalisation (X-WOPI-Lock) finds the value of the last server variable that carries it (HTTP_X_WOPI_LOCK). |
| Files.PostMessageOrigin | src/Wopi/Files.php:135-143 | For a webserver URL starting with "/", the origin starts with "https://" iff the request's HTTPS variable is truthy, and ends with the request's Host. For an absolute URL, it starts with the URL's own scheme and "://" and ends with the URL's own host. |
| Files.OriginIgnoresPath | src/Wopi/Files.php:135-139 | Under a relative webserver URL, the origin does not depend on the URL's path. |
| Files.OriginIgnoresRequest | src/Wopi/Files.php:140-143 | Under an absolute webserver URL, the origin does not depend on the request's HTTPS variable or Host header. |
| Files.CheckFileInfo | src/Wopi/Files.php:133-212 | The descriptor is null iff the path is empty or stat fails. Otherwise ReadOnly is !UserCanWrite and UserCanWrite is the path's writability. BaseFileName is the basename. All Supports* flags and UserCanRename are true. Owner, size and user are the decimal strings. PostMessageOrigin is the origin derived from the webserver URL and the request. |
| Files.Lock | src/Wopi/Files.php:241-276 | A missing lock token gives 400 and the store is untouched. An OldLock that differs from the current token gives 409 and the store is untouched. Otherwise the result is 200 with the path locked to the new token when the store grants it (unlocked, same holder, or matching OldLock released first), else 409 with the store unchanged. |
| Files.GetLock | src/Wopi/Files.php:285-291 | The status is always 200, and the token returned is the one the store holds. |
| Files.RefreshLock | src/Wopi/Files.php:300-318 | The early 400 is overwritten. The result is 200 and a refreshed lock when the path is unlocked or held with the presented token; otherwise 409 with the store unchanged. |
| Files.Unlock | src/Wopi/Files.php:327-348 | The early 400/409 are overwritten. The result is 200 with the lock removed iff the presented token is the holder's; otherwise 409 with the store unchanged. |
| Files.Put | src/Wopi/Files.php:357-390 | The body is written whatever the lock state. The status becomes 409 only when a lock exists and a different token is presented. The lock store is not touched. |
| Files.RemoveDotRunsNoDoubleDot | src/Wopi/Files.php:494-495 | After runs of periods are removed, no two adjacent periods remain. |
| Files.RemoveDotRunsIdentity | src/Wopi/Files.php:494-495 | A name without two adjacent periods is left unchanged by the run removal. |
| Files.SanitizeProperties | src/Wopi/Files.php:489-495 | The sanitised name holds only allowed characters and no "/", has no "..", and sanitising twice equals sanitising once. |
| Files.Cleaned | src/Wopi/Files.php:485-512 | The cleaned path is never an existing path. |
| Files.CleanFilename | src/Wopi/Files.php:485-512 | The loop returns `Cleaned`. That is dirname glued without separator to the sanitised name when that is free. Otherwise it is "base (n).ext" for the smallest n ≥ 2 that is free, with all retries before it taken. |
| Files.CleanedDropsSeparator | src/Wopi/Files.php:497-511 | Because dirname and name are joined without "/", cleaning "dir/name" never gives "dir/name" back. |
| Files.SuggestedAlwaysFresh | src/Wopi/Files.php:418-428 | A suggested target (without a relative one) is never refused, and it is stored under a name that did not exist. |
| Files.SaveAsRefusals | src/Wopi/Files.php:410-463 | Both targets give 501. A relative target differing from its cleaned form gives 400; the cleaned form is not reported. A relative target equal to its cleaned form did not exist, and it is stored as given. |
| Files.SaveAsNeverConflicts | src/Wopi/Files.php:430-460 | As written, every refusal is 400 or 501, never 409. A stored non-empty target did not exist, so the overwrite and lock checks are never reached. |
| Files.ExistingTargetRefused400 | src/Wopi/Files.php:430-460 | As written, an existing relative target inside a directory is answered 400, not 409. |
| Files.IntendedAccepts | src/Wopi/Files.php:433-438 | The intended check accepts a clean name joined to its directory by "/". |
| Files.IntendedExisting | src/Wopi/Files.php:440-460 | Under the intended check, an accepted relative target that exists gives 409 without overwrite, and 409 when the lock refuses the presented token; otherwise it is overwritten. |
| Files.IntendedConflict | src/Wopi/Files.php:440-460 | Under the intended check, an existing target gives 409 without overwrite, and also 409 when the lock refuses the presented token. With overwrite and a lock that permits it, the existing target is overwritten. |
| Files.OverwriteFalseAllows | src/Wopi/Files.php:407 | The overwrite header value "false" is truthy for boolval. Under the intended check it therefore overwrites an existing, unlocked target. |
| Files.RelativeTargetInDirectoryRefused | src/Wopi/Files.php:430-439 | Any relative target with a directory part is answered 400. |
| Files.DecideSaveAs | src/Wopi/Files.php:399-463 | The checks, in source order, give `SaveAsPlan` for the request headers. A refusal has status 400 or 501. A stored non-empty target did not exist. |
| Files.PutRelativeFile | src/Wopi/Files.php:399-477 | A refusal sets its status and writes nothing. Otherwise the body is written to the planned target, unless storage refuses it, and the final status is 200. The 404 for an unwritable target is overwritten. |
| Files.ContentsUrlRecognised | src/Wopi/Files.php:73 | Every URI containing /wopi/&lt;letters&gt;/&lt;digits&gt;/contents is recognised as a GetFile request. |
| Files.PutRelativeUnreachableAsWritten | src/Wopi/Files.php:69-71 | As written, PUT_RELATIVE reaches an undefined method instead of put_relative_file. |
| Files.RouteOf | src/Wopi/Files.php:52-78 | Each override value reaches its handler (PUT_RELATIVE reaches put_relative_file). Check-file-info is chosen only when the URI is not a contents request. |
| Files.Process | src/Wopi/Files.php:35-88 | This is the dispatch with PUT_RELATIVE corrected to reach put_relative_file. No path gives 404 and nothing changes. LOCK, REFRESH_LOCK, UNLOCK, PUT and PUT_RELATIVE have their handler's effect on the status, files and locks. GET_LOCK answers 200 and keeps the locks. Only PUT and PUT_RELATIVE change files. A contents request returns nothing and keeps the status and locks. The file-info route returns CheckFileInfo's data with the status unchanged, or 404 when it is null. |
| Vfs.Server.CurrentLock | src/Wopi/Files.php:256 | The current token is present iff the path is locked, and it is the held token. |
| Vfs.Server.Lock | src/Wopi/Files.php:272 | A lock is granted iff the path is unlocked or a refresh presents the held token; only then does the store change. |
| Vfs.Server.Unlock | src/Wopi/Files.php:345 | An unlock succeeds iff the presented token is held, and then removes only that path. |
| Vfs.Server.Write | src/Wopi/Files.php:389 | A write succeeds iff storage accepts the path, and then the body becomes the contents. |
| Vfs.Server.Copy | src/Ui.php:265 | A copy succeeds iff the source exists and the target is accepted, and then duplicates the contents. |
| Vfs.Server.MakeDir | src/Wopi/Settings.php:86 | A mkdir succeeds iff storage accepts the path, and then the directory exists. |
| Naming.CandidateInjective | src/Wopi/Files.php:506-508 | Different retry numbers give different names. |
| Naming.CandidatesBound | src/Wopi/Files.php:503-509 | If retries 2..n-1 are all taken, then at least n-2 names are taken, so the retry loop ends. |
| Naming.FirstFree | src/Wopi/Files.php:503-509 | The chosen retry number is free, and every retry before it is taken. |
| Naming.RetryStep | src/Wopi/Files.php:503-509 | A taken name moves the loop to the next retry. All names tried so far are taken, and the retry count never exceeds the number of taken names. |
| Naming.RetryDone | src/Wopi/Files.php:503-511 | When the loop stops at a free name, that name is the one `Unique` chooses. If the first name was taken, it is the first free retry, and every earlier retry is taken. |
| Naming.Unique | src/Ui.php:182-190 | The chosen name is not taken. It is the first name when that is free, otherwise a "base (n).ext" with n ≥ 2. |
| Naming.UniqueIsFirst | src/Ui.php:182-190 | The chosen retry is the smallest free one, starting at (2). |
| Bo.DecimalIsNumeric | src/Bo.php:211-214 | A decimal timestamp is numeric, so it is kept as the expiry. |
| Bo.NoDigitsNotNumeric | src/Bo.php:211 | A value without digits is not numeric, so it is converted. |
| Bo.RenameStripsPrefix | src/Bo.php:200-203 | The key "share_" + k is stored under k. |
| Bo.RenameKeepsOthers | src/Bo.php:200-204 | Other keys are stored unchanged. |
| Bo.RenamedKeys | src/Bo.php:198-205 | The renamed record has exactly the renamed keys of the share. |
| Bo.RenamedValue | src/Bo.php:198-205 | Each key holds the value of the last entry renamed to it, copied unchanged. |
| Bo.GetToken | src/Bo.php:190-220 | The keys are the renamed keys plus token and expires, and the other values are copied. The token is the urlencoding of the share token, and urldecoding restores its bytes. The expiry is numeric. It is kept when it already was, and otherwise it is the timestamp of the share's expiry. |
| Bo.IsVersioned | src/Bo.php:272-283 | True iff some tab's label is the localised "Versions". |
| Bo.GetActionUrl | src/Bo.php:232-264 | The URL is "" iff the path is empty or unreadable. Otherwise it is urlsrc + "WOPISrc=" + urlencode(src) + "&" + query. The src is the files URL, prefixed with protocol and host when relative. The query is exactly closebutton=1, then revisionhistory=1 iff the file is versioned, then permission=view iff it is not writable. |
| Bo.FilesLinkEndsWithInode | src/Bo.php:242 | The files URL ends with the inode number. |
| Router.RequestId | src/Wopi.php:46 | The id keeps only digits, "+" and "-". |
| Router.RequestIdKeeps | src/Wopi.php:46 | The filter works piecewise, keeps every digit and sign (equal counts), and is idempotent. |
| Router.EndpointClass | src/Wopi.php:49-53 | The endpoint class always lies in the Wopi endpoint namespace. |
| Router.EndpointOfPlainName | src/Wopi.php:49-53 | An alphanumeric endpoint name maps to the namespace plus the ucfirst'd name. |
| Router.EndpointClassClean | src/Wopi.php:49-53 | The derived class name carries no quote, angle bracket or control character. |
| Router.AccessToken | src/Wopi.php:79-83 | The token has no raw HTML special characters, and decoding its entities restores the raw token. |
| Router.Index | src/Wopi.php:40-74 | An unknown class gives 404 with no headers or body. Otherwise the envelope headers and the data are emitted iff the data is non-empty and headers are not yet sent. |
| Hooks.CspFrameSrc | src/Hooks.php:21-30 | The result is [server] when the configured server is non-empty, else []. |
| Hooks.GetEditorLink | src/Hooks.php:37-56 | None iff discovery throws. The menuaction is always the editor's. The mime map holds exactly the entries named "edit", with values unchanged. |
| Settings.Dispatch | src/Wopi/Settings.php:29-44 | GET with a type and fileId -1 fetches. POST with a non-numeric fileId uploads. DELETE deletes. Any other request gets no handler. |
| Settings.SlashedNotNumeric | src/Wopi/Settings.php:36 | A file id starting with "/" is never numeric. |
| Settings.PostedSettingsFileUploads | src/Wopi/Settings.php:36-39 | Every POST of a "/settings/..." file id reaches upload. |
| Settings.SettingsPath | src/Wopi/Settings.php:148-162 | userconfig gives home + "/.config/collabora". systemconfig gives the first configured directory, or "". Any other type gives no directory. |
| Settings.BucketOf | src/Wopi/Settings.php:61-66 | A bucket name is shorter than the root-relative directory it comes from (the leading "/" is dropped). |
| Settings.BucketNamesExact | src/Wopi/Settings.php:58-72 | A bucket name arises iff some found file belongs to it. |
| Settings.SelectExact | src/Wopi/Settings.php:58-72 | A bucket holds exactly the found files that belong to it. |
| Settings.SelectDisjoint | src/Wopi/Settings.php:58-72 | No file is in two buckets. |
| Settings.RootFileSkipped | src/Wopi/Settings.php:61-65 | A file directly in the settings root belongs to no bucket. |
| Settings.SettingFileBucket | src/Wopi/Settings.php:61-66 | A file in root/setting/ belongs to the bucket "setting". |
| Settings.GroupedAdd | src/Wopi/Settings.php:58-72 | Adding the next file keeps the buckets grouped. The file goes to the end of its bucket, and the bucket is created when it is new. |
| Settings.FetchSettings | src/Wopi/Settings.php:46-74 | Assuming `getFileInfo` succeeds, a fetch fails (fatal) iff some file falls in the "kind" bucket. Otherwise kind is "shared" iff the type is systemconfig. The buckets are autotext, xcu and browsersetting plus those of the found files, each holding its files in find order. |
| Settings.UploadTarget | src/Wopi/Settings.php:78-88 | The target is the setting directory, then "/", then the file name. |
| Settings.UploadTargetOf | src/Wopi/Settings.php:78-88 | For "/settings/type/setting/name", the target is the type's root + "/setting/name". |
| Settings.UploadSetting | src/Wopi/Settings.php:76-103 | The directory is made if missing. If it cannot be made, the answer is "failure" with the file name and nothing is written. A failed write gives 500 with X-WOPI-ServerError and no data. A successful write stores the body and, assuming `getFileInfo` succeeds, answers "success". |
| Ui.Index | src/Ui.php:77-114 | Nothing happens outside filemanager.index. There, a failed discovery shows an error, and changes are returned (and discovery sent) iff discovery is non-empty. |
| Ui.MergeEdit | src/Ui.php:176-197 | A merged document goes to the first free name home/filename, then "(2)", "(3)", and so on. The chosen target did not exist. The files change only by the copy. |
| Ui.TemplatePath | src/Ui.php:249-250 | The template path extends the webserver URL. |
| Ui.TemplateUrlAsWrittenLosesPath | src/Ui.php:251-256 | Under HTTPS, the URL as written is "https://" alone, while the intended one is "https://" + host + path. |
| Ui.TemplateUrl | src/Ui.php:251-256 | The intended template URL ends with the template path. A relative path is prefixed with protocol and host. |
| Ui.CreateNew | src/Ui.php:237-286 | An unwritable directory only adds a message first. An existing file yields "exists" with no write and no path. Otherwise the result is a copy of openasnew, or the template (" " when there is none). A path is returned only after a successful copy or write, and that file then exists. |
| Php.Lower | src/Wopi/Files.php:107 | strtolower maps each character and keeps the length. |
| Php.Ucfirst | src/Wopi.php:50 | Only the first character is upper-cased. |
| Php.Basename | src/Wopi/Files.php:487 | A basename never contains "/". |
| Php.SplitPath | src/Wopi/Files.php:487-499 | dirname and basename of "d/n" are d and n. |
| Php.PathInfoSplit | src/Wopi/Files.php:497-498 | The basename is the filename, ".", and the extension, or the filename alone with an empty extension. |
| Php.BasenameWithout | src/Wopi/Files.php:423 | The result is the basename itself, or a non-empty name that the suffix completes to the basename. |
| Php.NatToString | src/Wopi/Files.php:507 | The decimal form is non-empty and all digits. |
| Php.NatToStringInjective | src/Wopi/Files.php:506-508 | Distinct numbers print differently. |
| Php.StrRemovePrefix | src/Bo.php:202 | str_replace removes a prefix that does not occur again, leaving exactly the rest. |
| Php.IndexOf | src/Wopi/Files.php:104 | The index is the first occurrence of the character, or -1 when it is absent. |
| Php.Explode | src/Wopi/Settings.php:78 | There is at least one piece, and no piece holds the separator. |
| Php.ExplodeImplode | src/Wopi/Settings.php:78 | Joining the pieces restores the string. |
| Php.ImplodeExplode | src/Wopi/Settings.php:78 | Splitting a join of separator-free pieces restores the pieces. |
| Php.UrlRoundTrip | src/Bo.php:208 | urldecoding the urlencoding gives back the UTF-8 bytes. |
| Php.UrlEncodeBytesSafe | src/Bo.php:249 | urlencode emits only letters, digits, "-_.%+". |
| Php.UrlEncodePlus | src/Bo.php:207-208 | A "+" is encoded as "%2B". |
| Php.SpecialCharsRoundTrip | src/Wopi.php:81 | Decoding the entities restores the raw string. |
| Php.SpecialCharsClean | src/Wopi.php:81 | The output has no raw quote, angle bracket or control character. |
| Php.IntCast | src/Wopi/Files.php:38 | (int) yields a 64-bit integer. |
| Php.IntCastOfNat | src/Wopi/Files.php:38 | (int) of a decimal string is its value. |

## Left out

- GetFile streaming (src/Wopi/Files.php:221-231): only the route is modelled, because the bytes go straight to the output.
- The `X-WOPI-Lock` and `X-WOPI-ValidRelativeTarget` response headers are not modelled. The source passes the token, and the cleaned Save As target, as `header()`'s replace flag. So neither value is emitted, and a 400 from Save As does not report the cleaned name. Only statuses and store effects are specified.
- Files.PutRelativeFile: the method carries out the Save As decision as written (`SaveAsPlan`), so its status follows the code: 400 where 409 is meant. Both answers leave the files unchanged. The intended decision, `SaveAsPlanIntended`, is stated as a function with its lemmas and is not run by a method.
- Files.PutRelativeFile: with neither target header, the source writes to `Vfs::PREFIX` followed by an undefined `$target` (null). The model plans `Store("")` and writes the body under the path "", answering 200 unless storage refuses "". What the stream wrapper does with that bare prefix is not modelled.
- Files.PresentedToken: a missing `X-WOPI-Lock` (PHP null) is passed to the lock store as "". The store's treatment of null is not modelled.
- Files.PostMessageOrigin: `parse_url`'s scheme and host of the webserver URL are parameters (`Session.urlScheme`, `Session.urlHost`).
- Lock timeout, owner, scope and type are passed to the lock store but are not part of its modelled contract. `LockDuration` records the constant.
- Files.CheckFileInfo: `LastModifiedTime` is the raw modification time, because ISO 8601 formatting is left out.
- Bo.GetToken: `DateTime::to` is a parameter (`toTimestamp`), and `Wopi::create` is replaced by the share record it returns. The `$share['access_token_ttl']` assignment is a dead store and is not modelled.
- Bo.GetToken and Settings.FetchSettings: keys are modelled as a map, so the order of keys in the PHP arrays is not modelled.
- Bo.GetActionUrl: `Egw::link` is modelled as the webserver URL plus the path (`FilesLink`), without session parameters. Discovery and stat are parameters.
- Bo::discover and Bo::get_remote_data (network, XML, cache) are not part of this model. Discovery results are parameters.
- PHP loose comparison (`==` between numeric strings) is not modelled: tokens and names are compared as strings.
- Settings.Dispatch: `fileId == -1` is recognised only as "-1" with surrounding whitespace. Other numeric spellings such as "-01", "-1.0" or "-1e0" are not recognised.
- Unicode classes in `mb_ereg_replace`: `\w` and `\s` are modelled on ASCII. Every non-ASCII character is treated as a word character and kept.
- Settings::delete and Settings::getFileInfo are not part of this model: the token check and the date formatting are outside. Each bucket holds the file path its information describes.
- Settings.FetchSettings and Settings.UploadSetting: the model treats `getFileInfo` as succeeding. As written it throws on the undefined `Files::DATE_FORMAT`, so the fetch results and the "success" answer stated here are never produced by the code as it stands.
- Router.Index: `class_exists` is modelled as membership in a set of class names. Its case-insensitivity and autoloading are not modelled. Session start and JSON encoding are left out.
- Ui.MergeEdit: `check_document`, `merge_file`, `unlink` and the redirect are not modelled. The merged document is given as its contents (None when it is not a readable file).
- Ui.CreateNew: `file_get_contents` on the template URL is a parameter (`fetch`). `Vfs::fopen` plus `fwrite` is modelled as one write.
- Ui.CreateNew: the template is fetched from the corrected `Ui.TemplateUrl`, not from the URL as written. Under HTTPS the source fetches "https://" alone, so its new document would hold a single space; this method does not reproduce that (see Findings and `Ui.TemplateUrlAsWrittenLosesPath`).
- Ui::editor and Ui::ajax_getInfo are not part of this model. They only assemble page content from get_action_url and get_token.
- Php.IntCast saturates at the 64-bit bounds. Other integers (sizes, ids, inodes) are unbounded.

## Behaviour reproduced as written

These quirks are part of the model, with a lemma or contract showing each:

- PutRelativeFile sets 404 for an unwritable target, then still writes and answers 200 (`Files.PutRelativeFile`).
- `clean_filename` glues dirname and name without "/", so a RelativeTarget inside a directory is always refused with 400 (`Files.RelativeTargetInDirectoryRefused`).
- `boolval("false")` is true, so `X-WOPI-OverwriteRelativeTarget: false` counts as permission to overwrite. As written, the overwrite branch is never reached (see Findings), so this is stated on the intended decision (`Files.OverwriteFalseAllows`).
- RefreshLock and Unlock fall through after their 400/409, so the status comes only from the store (`Files.RefreshLock`, `Files.Unlock`).
- PutFile writes whatever the lock state (`Files.Put`).
- `ajax_createNew` continues after the "not writable" message (`Ui.CreateNew`).

Some faults are not modelled as behaviour:

- `Settings::process` is declared non-static but called statically by the router, which PHP 8 rejects.
- The error path of `merge_edit` calls a method on an undefined `$response`.
- `get_action_url` uses the `$url{0}` offset syntax, which PHP 8 no longer parses.
- `Settings::getFileInfo` reads `Files::DATE_FORMAT` (src/Wopi/Settings.php:144), but class `Files` defines only `LOCK_DURATION` (src/Wopi/Files.php:26). So every call throws. A fetch dies on its first bucketed file (src/Wopi/Settings.php:71), and a successful upload stores the body and then dies before answering "success" (src/Wopi/Settings.php:100).

The model follows each method's body as if these calls succeeded.

## Findings

| source | as written | input that shows it | evidently intended | confidence | as-written member | corrected member |
|---|---|---|---|---|---|---|
| src/Wopi/Files.php:69-71 | The PUT_RELATIVE case calls `static::put_relative`, a method the class does not define (the handler is `put_relative_file`). | A request with `X-WOPI-Override: PUT_RELATIVE` ends in a fatal "undefined method" error. | PUT_RELATIVE reaches `put_relative_file` (Save As). | not executed | Files.PutRelativeUnreachableAsWritten | Files.RouteOf |
| src/Ui.php:251-256 | The conditional operator binds weaker than `.`, so the HTTPS branch is just `'https://'` and only the HTTP branch gets host and path. | Webserver URL "/egroupware" with SERVER_PORT 443: the template URL is "https://", the fetch fails, and the new document holds a single space. | The protocol prefixed to host and template path, under HTTPS too. | not executed | Ui.TemplateUrlAsWrittenLosesPath | Ui.TemplateUrl |
| src/Wopi/Files.php:430-460 | The relative target is compared with `clean_filename`'s result, which is already de-duplicated against the existing files. A target equal to it therefore never exists, and both 409 branches and the overwrite flag are dead. | RelativeTarget "home/newfile.txt" naming an existing file, as in tests/Wopi/PutRelativeTest.php:82-105: the answer is 400, not the 409 that test expects. | The target is compared with its sanitised form joined by "/", before de-duplication, so an existing target is a 409 unless overwriting is asked and the lock permits it. | not executed | Files.SaveAsNeverConflicts | Files.IntendedConflict |
