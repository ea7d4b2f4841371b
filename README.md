# Chat room, configuration parsers and upload check, in Dafny

This project models three parts of a Flask + Socket.IO backend and proves what each one promises.

1. **The chat room** (`backend/app/routes/chat.py`). The state is two module-level structures:
   - `online_users`, a dictionary from username to socket id;
   - `message_history`, a list of records capped at 50.

   The `connect`, `join`, `disconnect` and `message` handlers update that state.
   `Chat.ChatRoom` is a class with the two structures as fields. `online_users` is a `seq` of `(username, sid)` pairs, which keeps the dictionary's insertion order (module `Registry`). Each handler is a method that changes the fields and returns the events it emits, in order; each event is a name, a payload and a broadcast flag. Every method keeps the class invariant: the keys stay distinct and the history holds at most 50 records.
2. **The environment parsers** (`backend/app/config.py`).
   - `_get_bool`, `_get_int` and `_get_csv` are total functions. They rely on Python's `str.strip`, `str.lower`, `str.split` and `int`, which are modelled in module `PyStr` and in `Config.ParseInt`.
   - `load_config` is a function from an environment map to either the settings dictionary or the exception it raises.
3. **The avatar-upload filename check** (`backend/app/routes/profile.py`): `ALLOWED_EXTENSIONS` and `allowed_file`, module `Uploads`.

Module `Wrappers` holds the `Option` and `Result` types.
`Chat.TwoUserSession`, `Chat.FirstJoinReplay`, `Chat.MessageEcho` and `Chat.DuplicateUsername` are client code. Each runs a session of handler calls and asserts what a caller can conclude from the handlers' contracts alone.

### Behaviour worth knowing
- A join or a leave broadcasts its `user_joined` or `user_left` event first. Only then does it append its system record to the history.
- A chat message's `timestamp` is copied from the client's payload, and may be missing. The server assigns none.
- History is the in-memory, capped `message_history` list. The `ChatMessage` table is never written by the chat handlers.
- On join, the count event `online_users` goes to the joining connection only. On leave, it is broadcast.
- `load_config` contains a `JWT_SECRET_KEY is required` error that cannot be reached. The JWT secret falls back to `SECRET_KEY`, so it is missing only when `SECRET_KEY` is, and that error is raised first (`Config.JwtSecretErrorUnreachable`).
- `int()` skips less whitespace than `str.strip()` removes: it leaves the separators U+001C..U+001F in place. So `_get_int("\x1c5", 7)` is 7 (`Config.GetIntKeepsSeparators`). `PyStr` therefore trims over either whitespace set: `StrSpaces` for `strip()`, `IntSpaces` for `int()`.

`Chat.Get` and `Chat.GetOr` are plain definitions of `data.get(key)` and `data.get(key, default)`. `Get` is `GetOr` with a null default.

## Model

| member | source | states |
|---|---|---|
| Chat.ChatRoom.constructor | backend/app/routes/chat.py:11-12 | The room starts with nobody online and an empty history, which satisfies the invariant. |
| Chat.ChatRoom.HandleConnect | backend/app/routes/chat.py:14-16 | A connection alone changes nothing and emits nothing. |
| Chat.ChatRoom.HandleJoin | backend/app/routes/chat.py:44-75 | A missing or empty username changes nothing and emits nothing. Otherwise the username maps to the caller's sid and every other entry keeps its value. A re-join does not raise the count. The join record is appended under the 50-record cap. The events are `online_users` to the joiner, then `user_joined` broadcast, with both counts taken after insertion, then `previous_messages` to the joiner only. That history ends with the join record. |
| Chat.ChatRoom.HandleDisconnect | backend/app/routes/chat.py:18-42 | If no entry holds the sid, nothing is removed, appended or emitted. Otherwise exactly the first matching entry, in dictionary order, is removed. Every other entry is unchanged and the count drops by one. One `"<u> has left the chat"` system record is appended under the cap. `user_left` and then `online_users` are broadcast, both carrying the count after deletion. |
| Chat.ChatRoom.HandleMessage | backend/app/routes/chat.py:77-104 | The online users never change. If the username or the content is missing or empty, nothing is recorded or sent. Otherwise one record holding the payload's fields verbatim is appended under the cap and broadcast: the client timestamp as sent, and `type` defaulting to `'text'` only when the key is absent. |
| Chat.Capped | backend/app/routes/chat.py:94-99 | After `append` and the conditional `pop(0)`, the new record is last. Before it stand the newest old records in their old order. The length grows by one below 50 and stays put at 50, so a history of at most 50 stays at most 50. |
| Chat.CappedAtLimit | backend/app/routes/chat.py:98-99 | At 50 records exactly the oldest one is dropped. |
| Chat.CappedBelowLimit | backend/app/routes/chat.py:95-99 | Below 50 records nothing is dropped. |
| Chat.DuplicateRegistry | backend/app/routes/chat.py:21-48 | A second join under one name replaces the sid in place. After that, the first connection's sid matches no entry. |
| Registry.Put | backend/app/routes/chat.py:48 | `online_users[u] = sid`: `u` now maps to `sid` and every other key keeps its value. An existing key keeps its position and adds no item. Distinct keys stay distinct. |
| Registry.Lookup | backend/app/routes/chat.py:11 | `online_users.get(u)`: the sid of the first item whose key is `u`. Its meaning is pinned by `LookupNone` and by the contracts of `Put` and `Delete`. |
| Registry.Delete | backend/app/routes/chat.py:23 | `del online_users[u]`: `u` is gone and every other key keeps its value. The length drops by one exactly when `u` was present. Distinct keys stay distinct. |
| Registry.DeleteAt | backend/app/routes/chat.py:21-23 | Deleting the key of item `i` removes exactly that item and keeps the rest in order. |
| Registry.FindSid | backend/app/routes/chat.py:21-22 | The loop over the items stops at the first item holding the sid. It finds none exactly when no item holds it. |
| Registry.LookupNone | backend/app/routes/chat.py:11 | A lookup misses exactly when the username is not among the keys. |
| Registry.CountIsUsernames | backend/app/routes/chat.py:52 | With distinct keys, `len(online_users)` is the number of distinct usernames online. |
| Config.GetBool | backend/app/config.py:7-10 | `None` gives the default. A present value is true exactly when its stripped, lower-cased text is one of `1`, `true`, `yes`, `y`, `on`. |
| Config.GetBoolIgnoresDefault | backend/app/config.py:8-10 | For a present value the default plays no part. |
| Config.GetBoolIgnoresPadding | backend/app/config.py:10 | Surrounding whitespace never changes the verdict. |
| Config.GetBoolIgnoresCase | backend/app/config.py:10 | Two values that agree up to letter case get the same verdict. |
| Config.LowerStripCommute | backend/app/config.py:10 | Lower-casing and stripping commute. |
| Config.GetInt | backend/app/config.py:13-19 | `None` gives the default. Present text gives the value `int()` reads, and text it rejects gives the default, so the function never fails. The lemmas below pin which texts are read. |
| Config.ParseInt | backend/app/config.py:17 | `int(s)` in base 10. Around the text it skips the whitespace `int()` skips, which leaves out U+001C..U+001F. Inside, it reads an optional sign and ASCII digits grouped by single underscores. Anything else is `None`, where Python raises `ValueError`. |
| Config.NatToDecimal | backend/app/config.py:17 | The decimal text written for `n` is non-empty, is all digits, and reads back as `n`. |
| Config.GetIntReadsDecimal | backend/app/config.py:13-19 | Every integer written as decimal text, negative ones included, is read back exactly, whatever the default. |
| Config.GetIntIgnoresPadding | backend/app/config.py:17 | Surrounding whitespace of the kind `int()` skips never changes what is read. |
| Config.GetIntAcceptsSign | backend/app/config.py:17 | A leading `+` or `-` is accepted and gives the value's sign. |
| Config.GetIntAcceptsSignAndPadding | backend/app/config.py:17 | A signed number between runs of the whitespace `int()` skips is read with its sign. |
| Config.GetIntDigitGroups | backend/app/config.py:17 | Single underscores between digits group them: `"1_000"` reads as 1000. |
| Config.GetIntMisplacedUnderscore | backend/app/config.py:16-19 | A doubled, leading or trailing underscore makes the text malformed, so the default is returned. |
| Config.GetIntNoDigits | backend/app/config.py:16-19 | Empty text, a lone sign, and a sign parted from its digits give the default. |
| Config.GetIntNotDecimalInteger | backend/app/config.py:16-19 | Hexadecimal text and fractions give the default. |
| Config.GetIntKeepsSeparators | backend/app/config.py:16-19 | `"\x1c5"` strips to `"5"` under `str.strip()`, yet `int()` rejects it, so `_get_int` returns the default. |
| Config.GetCsv | backend/app/config.py:22-29 | `None` gives the local origin list. A present value is the wildcard exactly when it strips to `"*"`. Every listed item is non-empty, comma-free and has no surrounding whitespace. |
| Config.GetCsvPieces | backend/app/config.py:25-29 | For every value other than the wildcard, the list is the value's comma pieces, each stripped, blank ones dropped, in their original order. Stripping the whole value first changes nothing. |
| Config.StripPiecesIgnoresPadding | backend/app/config.py:25-28 | Whitespace around the whole value pads only the first and last comma pieces, and stripping each piece removes it again. |
| Config.StripEach | backend/app/config.py:28 | Each item is stripped, in order, and none is added or lost. |
| Config.NonEmpty | backend/app/config.py:29 | An item is kept exactly when it was in the input and is non-empty. |
| Config.NonEmptyAppend | backend/app/config.py:29 | Filtering works piece by piece (`NonEmpty(a + b) == NonEmpty(a) + NonEmpty(b)`), so the kept items stay in their order. |
| Config.GetCsvReadsJoined | backend/app/config.py:25-29 | Clean items joined by commas read back as the same list, in the same order. The one exception is the single item `"*"`. |
| Config.GetCsvDropsBlanks | backend/app/config.py:28-29 | Items are stripped and blank items dropped: `" a , ,b,"` reads as `["a", "b"]`. |
| Config.GetCsvWildcard | backend/app/config.py:25-27 | `" * "` is the wildcard sentinel, not a list. |
| Config.GetCsvEmpty | backend/app/config.py:25-29 | An empty value gives an empty list, not the default origin. |
| Config.Getenv | backend/app/config.py:33 | `os.getenv` finds a value exactly when the name is set, and the value it finds is the one set. |
| Config.Or | backend/app/config.py:37 | `a or b` is one of its operands. It is truthy exactly when either operand is, and it is `a` whenever `a` is truthy. |
| Config.EnvName | backend/app/config.py:33 | The environment name is `APP_ENV` if that is non-empty, else `FLASK_ENV` if that is non-empty, else `"development"`. It is never empty. |
| Config.LoadConfig | backend/app/config.py:32-70 | Loading succeeds exactly when `SECRET_KEY` is set or debug is on, and the token lifetime fits `timedelta`. With a secret present, the only failure is the overflow. Debug comes from `FLASK_DEBUG`, defaulting to whether the environment is `"development"`. With debug off, a missing `SECRET_KEY` is an error and never a generated value; with debug on, a missing secret is the generated one. The JWT secret falls back to `SECRET_KEY`, and only then to a generated value. The upload limit is `MAX_UPLOAD_MB` (default 5) times 1024 times 1024. The token lifetime is `JWT_ACCESS_TOKEN_DAYS` (default 7). The database URI is the SQLite URI of the instance path. Both origin lists are parsed by `_get_csv`, and the Socket.IO list falls back to `CORS_ORIGINS`. Proxy trust comes from `TRUST_PROXY_HEADERS`, defaulting to off. |
| Config.JwtSecretErrorUnreachable | backend/app/config.py:37-49 | The `JWT_SECRET_KEY is required` error is never raised. |
| Config.DebugSecretsAreGeneratedSeparately | backend/app/config.py:39-47 | In debug mode with neither secret set, each secret gets its own generated value. |
| Config.EmptyEnvironment | backend/app/config.py:32-70 | An empty environment gives the full development settings. |
| Config.ProductionNeedsSecret | backend/app/config.py:33-43 | Outside development, with no `FLASK_DEBUG` and no `SECRET_KEY`, loading fails with the secret error. |
| Config.TokenLifetimeOverflows | backend/app/config.py:56-66 | A token lifetime beyond `timedelta`'s 999999999 days is an error, not a setting. |
| PyStr.Strip | backend/app/config.py:10 | The trim leaves no whitespace of the chosen set at either end, and never lengthens the text. The set is `str.isspace()` for `strip()`, and the smaller set for `int()`. |
| PyStr.TrimLeft | backend/app/config.py:10 | `lstrip()` never lengthens the text and leaves no whitespace at its start. With `TrimLeftSplits`, it removes exactly a leading whitespace run. |
| PyStr.TrimRight | backend/app/config.py:10 | `rstrip()` never lengthens the text and leaves no whitespace at its end. With `TrimRightSplits`, it removes exactly a trailing whitespace run. |
| PyStr.TrimLeftSplits | backend/app/config.py:10 | The text is a whitespace run followed by what `lstrip()` returns. |
| PyStr.TrimRightSplits | backend/app/config.py:10 | The text is what `rstrip()` returns followed by a whitespace run. |
| PyStr.StripSplits | backend/app/config.py:25 | Every string is its stripped text between two runs of whitespace. |
| PyStr.StripIgnoresPadding | backend/app/config.py:28 | Extra surrounding whitespace never changes what `strip()` returns. |
| PyStr.StripUnique | backend/app/config.py:28 | Stripping text that sits between whitespace runs returns exactly that text. |
| PyStr.Lower | backend/app/config.py:10 | `lower()` keeps the length and maps each character on its own. |
| PyStr.Split | backend/app/config.py:28 | `split(",")` gives at least one piece, no piece holds the separator, and joining the pieces gives back the text. |
| PyStr.SplitJoin | backend/app/config.py:28 | Splitting undoes joining for separator-free pieces. |
| Uploads.LastIndexOf | backend/app/routes/profile.py:14 | The index found holds the character and no later index does; -1 means it is absent. |
| Uploads.Extension | backend/app/routes/profile.py:14 | The text after the last dot holds no dot. |
| Uploads.AllowedFile | backend/app/routes/profile.py:12-14 | `allowed_file` itself: there is a dot, and the lower-cased text after the last dot is an allowed extension. What it means for callers is pinned by the lemmas below. |
| Uploads.NoDotRejected | backend/app/routes/profile.py:13 | A name without a dot is never accepted. |
| Uploads.LastExtensionDecides | backend/app/routes/profile.py:13-14 | For any base name, `base + "." + ext` with a dot-free `ext` is accepted exactly when lower-cased `ext` is `png`, `jpg`, `jpeg` or `gif`. |
| Uploads.CaseInsensitive | backend/app/routes/profile.py:14 | Two names that agree up to letter case get the same verdict. |
| Uploads.InnerDotIgnored | backend/app/routes/profile.py:14 | `"x.exe.png"` is accepted. |
| Uploads.InnerImageExtensionIgnored | backend/app/routes/profile.py:14 | `"x.png.exe"` is rejected. |
| Uploads.UpperCaseExample | backend/app/routes/profile.py:14 | `"A.PNG"` is accepted. |
| Uploads.MixedCaseExample | backend/app/routes/profile.py:14 | `"b.JpEg"` is accepted. |
| Uploads.TrailingDotExample | backend/app/routes/profile.py:13-14 | `"file."` has an empty extension and is rejected. |
| Uploads.EmptyBaseExample | backend/app/routes/profile.py:13-14 | `".gif"` is accepted: the base name may be empty. |

## Left out

- The Socket.IO transport is not modelled: `emit`, `join_room`, the `chat_room` room and `@socketio.on`. Emissions are a returned event log, and `request.sid` is a method parameter.
- Concurrency between handlers on socket threads is not modelled. Handlers run one at a time, because the code has no locking to model.
- `datetime.now().isoformat()` is a `now` parameter of the join and disconnect handlers.
- The diagnostic `print` calls (backend/app/routes/chat.py:16, 75, 104) are not modelled.
- Non-string JSON values in a payload are not modelled: numbers, booleans, lists and objects. Payload values are `null` or strings, and a non-dictionary payload is not modelled.
- PyStr.Lower: lower-cases ASCII letters only, one character for one. Python's full `lower()` also maps non-ASCII characters. Only two of them yield an ASCII letter: the Kelvin sign U+212A becomes `k`, and U+0130 becomes `i` followed by U+0307, which lengthens the text. Every other character stays non-ASCII. No accepted word of `_get_bool` or `allowed_file` contains `k` or U+0307, and every accepted word is pure ASCII. So Python's `lower()` and this model give the same verdicts.
- Config.ParseInt: reads ASCII digits only. Python's `int` also accepts other Unicode decimal digits, and it rejects texts longer than its digit limit (4300 digits by default).
- `load_config`'s `Path(instance_path).mkdir(...)` is not modelled: neither the directory creation nor its failures. `dbPath` stands for the POSIX form of `instance_path / "app.db"`.
- `os.urandom(32).hex()` is not modelled. Its two results are the parameters `generatedSecret` and `generatedJwtSecret`.
- The other routes of backend/app/routes/profile.py are not modelled: ORM reads and commits, file saving and deletion, and `secure_filename`.
- backend/app/routes/map.py, the models (`User`, `ChatMessage`), backend/app/observability.py, the app bootstrap and the frontend are not part of this model.
