# Anonymous Timezone — a Dafny model

This project models the owned logic of the Drupal module *anonymous_timezone*.
The module gives anonymous visitors the timezone of their IP address, which it
looks up in a MaxMind GeoIP2 city database. It also has a settings form for
the database path and for a list of "exclude paths".

Two pieces are modelled, as pure functions over immutable data:

- **The account proxy** (`AccountProxy`, in `account_proxy.dfy`).
  `getGeoTimeZone()` keeps a per-request static cache from client IP to
  timezone or NULL. The cache is an explicit `State.cache` map. The proxy's
  effects are recorded in order in `State.log`: the page-cache kill switch, the
  read of the settings, the query to the GeoIP2 reader, and the call that sets
  PHP's default timezone. The reader is an outcome per IP:
  - `Found(tz)`: a record, whose timezone may be NULL;
  - `GeoIpFailure`: a `GeoIp2Exception`, which is swallowed;
  - `InvalidDatabase`: any other exception, which escapes.

  `Resolve` is the reference meaning of one uncached lookup. `GeoTimeZone` is
  proved to agree with it on every miss.
- **The settings form** (`ExcludePaths` in `exclude_paths.dfy`,
  `SettingsValidation` in `settings_validation.dfy`). On submit, the textarea
  is split on `\r\n|\n|\r`. Pieces PHP treats as empty (`""` and `"0"`) are then
  dropped, and the remaining pieces keep their array keys. The stored list is
  shown again joined with `"\n"`. Validation is a decision function over
  abstract inputs: which files exist, which files were uploaded, and what the
  reader does with a path.

The PHP semantics the code relies on are in `php.dfy` (module `Php`):
`empty()` on strings and NULL, `strstr(...) !== FALSE`, and NULL as `Option`.

What the model makes visible:

- The cache-hit test is `isset($cache[$ip])`, so an IP cached as NULL is not a
  hit. Every lookup for a visitor whose timezone cannot be resolved triggers the
  kill switch again (`AccountProxy.UnknownVisitorTriggersEveryTime`), and
  queries the reader again when the database is usable
  (`AccountProxy.MissEvents`). A visitor whose timezone is found triggers it
  once in total (`AccountProxy.KnownVisitorTriggersOnce`).
- Only `GeoIp2Exception` is swallowed. Any other reader failure escapes the
  proxy and leaves the cache exactly as it was.
- `validateForm()` sets the `geodb` value to the uploaded URI even when the
  reader has just rejected that file. Its comment says this happens only when
  validation is okay. The consequence is mild: the error still blocks
  submission.
- The cache is `drupal_static`, so it lives for one request, not for the
  whole process.

## Model

| member | source | states |
|---|---|---|
| `AccountProxy.GeoTimeZone` | src/AnonymousTimezoneAccountProxy.php:94-120 | A hit (non-NULL entry) returns the cached value with no effect. A miss throws exactly when the reader fails with a non-GeoIP2 exception; otherwise it returns the uncached resolution, with NULL for unknown. A returned value is what the cache then holds for the IP. An exception leaves the cache unchanged. No other IP's entry changes. A miss performs the kill switch, settings read, reader query sequence |
| `AccountProxy.MissEvents` | src/AnonymousTimezoneAccountProxy.php:100-107 | On a miss the kill switch comes first and only once, before the settings read. Nothing else follows except one reader query, for the configured path and this IP, made exactly when that path is non-empty and exists |
| `AccountProxy.Resolve` | src/AnonymousTimezoneAccountProxy.php:102-115 | An uncached lookup yields a timezone exactly when the configured file is usable and the reader gives a record with a non-empty timezone, and then it is that timezone. It fails exactly when a usable database makes the reader raise a non-GeoIP2 exception. Every other case is unknown |
| `AccountProxy.SettleEntry` | src/AnonymousTimezoneAccountProxy.php:116-118 | An absent or PHP-empty entry becomes NULL. A non-empty entry is kept. Other entries are untouched |
| `AccountProxy.KillCount` | src/AnonymousTimezoneAccountProxy.php:101 | The number of kill switch triggers in a log is at most its length. It is zero exactly when the log holds no trigger |
| `AccountProxy.KillCountAppend` | src/AnonymousTimezoneAccountProxy.php:101 | Kill switch triggers add up over concatenated logs |
| `AccountProxy.KillSwitchOncePerMiss` | src/AnonymousTimezoneAccountProxy.php:97-101 | A lookup adds exactly one kill switch trigger on a miss and none on a hit |
| `AccountProxy.CacheStaysWellFormed` | src/AnonymousTimezoneAccountProxy.php:108-111 | Only non-empty timezones are ever stored or returned, so a well-formed cache stays well-formed |
| `AccountProxy.MissingDatabaseGivesNull` | src/AnonymousTimezoneAccountProxy.php:102-119 | An empty setting or a missing file gives NULL without an exception. The IP is then cached as NULL |
| `AccountProxy.FoundZoneIsMemoised` | src/AnonymousTimezoneAccountProxy.php:95-111 | After a lookup returns a timezone, the next lookup for that IP returns it from the cache with no effect, whatever the environment |
| `AccountProxy.NullEntryIsRetried` | src/AnonymousTimezoneAccountProxy.php:97-118 | After a lookup returns NULL, the IP is cached as NULL. That entry is not a hit, and the next lookup triggers the kill switch again |
| `AccountProxy.Repeat` | src/AnonymousTimezoneAccountProxy.php:94-120 | Repeated lookups for one visitor only ever extend the effect log: the log before is a prefix of the log after |
| `AccountProxy.UnknownVisitorTriggersEveryTime` | src/AnonymousTimezoneAccountProxy.php:97-118 | For a visitor whose timezone cannot be resolved, n lookups trigger the kill switch n times, and each returns NULL |
| `AccountProxy.KnownVisitorTriggersOnce` | src/AnonymousTimezoneAccountProxy.php:97-111 | For a visitor whose timezone is found, n ≥ 1 lookups trigger the kill switch once in total, and all return that timezone |
| `AccountProxy.GetTimeZone` | src/AnonymousTimezoneAccountProxy.php:75-84 | A non-anonymous user gets the parent's timezone, with no lookup and no effect. An anonymous visitor gets the geo timezone when it is non-empty and the parent's timezone otherwise, in the state the lookup left. A lookup exception propagates |
| `AccountProxy.TimeZoneOfUncachedVisitor` | src/AnonymousTimezoneAccountProxy.php:75-84 | An anonymous, uncached visitor gets the resolved timezone when there is one and the parent's timezone otherwise |
| `AccountProxy.TimeZoneOfCachedVisitor` | src/AnonymousTimezoneAccountProxy.php:76-98 | An anonymous visitor whose IP holds a timezone in the cache gets that timezone, with no lookup and no effect |
| `AccountProxy.GetAccount` | src/AnonymousTimezoneAccountProxy.php:61-70 | The account is returned unchanged. For an anonymous visitor, PHP's default timezone is set exactly when the geo timezone is non-empty, and to that value. A non-anonymous account causes no effect |
| `ExcludePaths.SplitLines` | src/Form/AnonymousTimezoneSettingsForm.php:140 | The split always yields at least one piece, and at most one more than the text's length. No piece contains `\r` or `\n` |
| `ExcludePaths.SplitSingleLinePrefix` | src/Form/AnonymousTimezoneSettingsForm.php:140 | Text without line breaks is glued onto the first piece of what follows it |
| `ExcludePaths.SplitAtCrLf` | src/Form/AnonymousTimezoneSettingsForm.php:140 | `\r\n` after a line is one separator, not two |
| `ExcludePaths.SplitAtLf` | src/Form/AnonymousTimezoneSettingsForm.php:140 | `\n` after a line is a separator |
| `ExcludePaths.SplitAtCr` | src/Form/AnonymousTimezoneSettingsForm.php:140 | A lone `\r` (not followed by `\n`) after a line is a separator |
| `ExcludePaths.SplitJoin` | src/Form/AnonymousTimezoneSettingsForm.php:94-140 | Splitting a `"\n"`-join of one or more single-line items gives the items back, empty items included |
| `ExcludePaths.JoinSplit` | src/Form/AnonymousTimezoneSettingsForm.php:94-140 | Joining the pieces of a text without `\r` with `"\n"` gives the text back |
| `ExcludePaths.KeepNonEmpty` | src/Form/AnonymousTimezoneSettingsForm.php:141-145 | Every kept entry is a non-empty piece under its original array key, and the keys increase in input order |
| `ExcludePaths.KeepNonEmptyComplete` | src/Form/AnonymousTimezoneSettingsForm.php:141-145 | Every non-empty piece is kept |
| `ExcludePaths.KeepNonEmptyKeepsAll` | src/Form/AnonymousTimezoneSettingsForm.php:141-145 | With no empty piece, every piece is kept under consecutive keys |
| `ExcludePaths.KeepNonEmptyPaths` | src/Form/AnonymousTimezoneSettingsForm.php:141-145 | With no empty piece, the stored values are exactly the pieces |
| `ExcludePaths.ParseExcludePaths` | src/Form/AnonymousTimezoneSettingsForm.php:140-145 | Each stored entry is a non-empty, single-line line of the text, stored under that line's number, in line order |
| `ExcludePaths.ParseKeepsLine` | src/Form/AnonymousTimezoneSettingsForm.php:140-145 | A line of the text is stored if and only if it is not PHP-empty |
| `ExcludePaths.RenderExcludePaths` | src/Form/AnonymousTimezoneSettingsForm.php:86-94 | A missing or empty stored list is shown as the empty string |
| `ExcludePaths.ParseRender` | src/Form/AnonymousTimezoneSettingsForm.php:86-145 | Showing a stored list of non-empty, single-line paths and submitting it unchanged stores the same paths, under keys 0, 1, 2, … |
| `ExcludePaths.MixedSeparatorsExample` | src/Form/AnonymousTimezoneSettingsForm.php:140-145 | `"a\r\n0\r\rb"` is stored as `a` under key 0 and `b` under key 3: the `"0"` line and the empty line are dropped, leaving a gap in the keys |
| `ExcludePaths.SubmitForm` | src/Form/AnonymousTimezoneSettingsForm.php:139-149 | The saved `geodb` is the real path of the submitted value. Each saved exclude path is the non-empty, single-line line of the submitted text under that line's number. Paths are saved in line order, and a line is saved exactly when it is not PHP-empty |
| `SettingsValidation.ValidateForm` | src/Form/AnonymousTimezoneSettingsForm.php:102-134 | Validation stops early, with a single error and no reader check, exactly when the typed path does not exist and nothing was uploaded. An upload's URI replaces the typed path for the reader check and as the `geodb` value. After the early stop, there is no error exactly when the reader check is accepted. Any error is the reader's own message |
| `SettingsValidation.UploadOverridesDespiteError` | src/Form/AnonymousTimezoneSettingsForm.php:128-131 | With an upload the reader rejects, the error is set, and `geodb` is still overwritten with the upload's URI |
| `SettingsValidation.UnknownAddressIsAccepted` | src/Form/AnonymousTimezoneSettingsForm.php:118-126 | A reader message containing "is not in the database" does not fail validation |

## Left out

- The MaxMind reader and the database format: a third-party library. A lookup is an outcome per IP, and a validation check is an outcome per path.
- Drupal plumbing: constructors, `create`, `getFormId`, `getEditableConfigNames`, form-element rendering, translation and URL building, config persistence, and file-entity storage. Loading the uploaded file is a function from file id to URI. A file id whose load fails is not modelled.
- `realpath()` is a parameter of `SubmitForm`. Its FALSE result is modelled as NULL.
- The kill switch internals and `date_default_timezone_set()`: only the fact that they are called, and with which timezone, is recorded.
- `drupal_static`, the request stack and `$_SERVER['REMOTE_ADDR']`: the cache is the state parameter and the client IP is an input. A NULL client IP, which PHP would use as the key `""`, is not modelled.
- The parent `AccountProxy` class is not part of this model. Its `getAccount()`, `isAnonymous()` and `getTimeZone()` are given by the `Account` input. In Drupal these parent methods may call the overridden `getAccount()` again, which would add further lookups. That is not modelled.
- `parent::validateForm()` and `parent::submitForm()`: framework calls with no owned logic.
- Concurrency: the cache is local to one single-threaded request.
