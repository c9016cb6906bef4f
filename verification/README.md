# Campus-map bot: command core in Dafny

This project models the command handlers of a chat bot for a university
campus-map project (`scr/main.py`). The bot answers a fixed set of slash
commands. It greets users and records their ids, lists the building models
kept in a JSON store, sends the models' images as a gallery, reports the user
count to the admin, and lets the admin add or overwrite a model.

The state has two parts:

- `users`: the ids of the callers that have sent `/start`. It lives in memory
  only and only grows.
- `store`: the file `data/models.json`. It is either `Absent` or `Saved`
  holding an object that maps a name to a record `{description, image}`. The
  object is an association list in key-insertion order, because a Python
  dict keeps that order. `ToMap` gives its view as a Dafny `map`.

Modules:

- `Wrappers`: `Option`.
- `Strings`: the Python string operations the handlers use. These are
  `split(sep)`, `replace(t, "")`, `strip()` (with Python's exact whitespace
  set) and `str(n)`. A leftmost-match search in the manner of `find` is the
  helper that `split` and `replace` are defined with.
- `RecordStore`: records, the store file, `load_models`, and
  `models[name] = record` (`Put`).
- `Commands`: the fixed reply texts, the `/добавить` argument parser, the
  listing text, the gallery's choice of photos, and the statistics text.
- `Handlers`: the class `BotState` with fields `users` and `store` and a const
  `admin`. It has a method for each of the five handlers with behaviour
  (`Start`, `Corpuses`, `Gallery`, `Stats`, `Add`) and a dispatch method
  `Handle` that calls them and sends the fixed `/помощь`, `/новости` and
  `/ресурсы` texts itself. Beside the class, the module holds three client
  methods that run command sequences on a fresh bot.

Each handler method returns the replies it sends, in order. `Start`, `Stats`
and `Add` take the caller id, and `Add` also takes the raw message text.
`Corpuses` takes no argument and `Gallery` takes only `files`. A reply is
either `Text(s)` or `Photo(path, caption)`. File existence is the parameter
`files`: the set of paths for which `os.path.exists` holds when the gallery
runs. `ADMIN_ID` is the constructor's `admin` argument.

Facts about `scr/main.py` that the model keeps:

- The commands are the Russian names registered in the code: `/помощь`,
  `/корпуса`, `/галерея`, `/новости`, `/ресурсы`, `/статистика` and
  `/добавить`, besides `/start`.
- Fields are separated by the exact string `" | "` (a bar between two spaces).
- The stored object keeps insertion order, and the listing and the gallery
  follow it.
- Nothing checks that stored names are non-empty. For names added through
  `/добавить`, though, the parser itself guarantees a non-empty name and a
  non-empty image path (`Commands.ParseAdd`).

## Model

| member | source | states |
|---|---|---|
| `Strings.Find` | scr/main.py:124 | The occurrence it gives lies within the text. `Strings.FindLeftmost` and `Strings.FindIs` pin it as the leftmost one. |
| `Strings.FindLeftmost` | scr/main.py:124 | `find` gives an index where `t` occurs and no occurrence starts before it. When it gives nothing, `t` occurs nowhere. |
| `Strings.FindIs` | scr/main.py:124 | Conversely, an index holding an occurrence with none before it is what `find` gives. |
| `Strings.Join` | scr/main.py:124 | Python's `sep.join(parts)`. It is the inverse of `split`: `Strings.SplitJoinsBack` and `Strings.SplitJoin` relate the two. |
| `Strings.Split` | scr/main.py:124 | `split(sep)` gives at least one piece. |
| `Strings.SplitJoinsBack` | scr/main.py:124 | Joining the pieces of `split(sep)` with `sep` gives back the text. |
| `Strings.SplitPiecesLackSep` | scr/main.py:124 | No piece of `split(sep)` contains `sep`. |
| `Strings.SplitSingle` | scr/main.py:124 | `split(sep)` gives a single piece exactly when `sep` does not occur. |
| `Strings.SplitJoin` | scr/main.py:124 | Splitting `sep.join(parts)` gives back `parts` when no part contains a character that occurs once in `sep` (the bar in the field separator). |
| `Strings.SplitThreeCuts` | scr/main.py:124 | When `split(sep)` gives three pieces, the first `sep` in the text comes right after the first piece, and the first `sep` after that comes right after the second piece. |
| `Strings.SplitThree` | scr/main.py:124-128 | The three-field case: `a + sep + b + sep + c` splits into exactly `[a, b, c]`. |
| `Strings.RemoveAllIsJoinedSplit` | scr/main.py:124 | The one-pass `replace(t, "")` equals `"".join(s.split(t))`. |
| `Strings.RemoveAllNoMatch` | scr/main.py:124 | `replace(t, "")` leaves a text without `t` unchanged. |
| `Strings.RemoveAll` | scr/main.py:124 | `replace(t, "")` never makes the text longer. |
| `Strings.RemoveAllPiece` | scr/main.py:124 | When the leftmost occurrence of `t` follows the piece `p`, `replace` keeps `p`, drops that occurrence and continues after it. |
| `Strings.IsSpace` | scr/main.py:124 | Python's `str.isspace` for one code point. `Strings.TrimStart`, `Strings.TrimEnd` and `Strings.Strip` state that `strip()` removes exactly such characters at the ends. |
| `Strings.TrimStart` | scr/main.py:124 | The result is the suffix left after dropping leading whitespace. Everything dropped is whitespace, and the result does not start with whitespace. |
| `Strings.TrimEnd` | scr/main.py:124 | The result is the prefix left after dropping trailing whitespace. Everything dropped is whitespace, and the result does not end with whitespace. |
| `Strings.Strip` | scr/main.py:124 | The result is the slice of the text that starts right after its leading whitespace. Everything before and after that slice is whitespace, and the result neither starts nor ends with whitespace. It is empty exactly when the whole text is whitespace. |
| `Strings.StripSkipsLeadingSpace` | scr/main.py:124 | A leading whitespace character does not change what `strip()` returns. |
| `Strings.StripKeeps` | scr/main.py:124 | A text with non-whitespace ends is its own `strip()`. |
| `Strings.NatToDecimal` | scr/main.py:116 | `str(n)` is a non-empty string of decimal digits with no leading zero. |
| `Strings.DecimalRoundTrip` | scr/main.py:116 | Reading back the decimal text of `n` gives `n`. |
| `RecordStore.Load` | scr/main.py:41-46 | `load_models`. `RecordStore.LoadSave` states that an absent file loads as the empty object and a saved object loads back unchanged. |
| `RecordStore.Save` | scr/main.py:131-132 | Writing the whole object back with `json.dump`. `RecordStore.LoadSave` states that it loads back unchanged. |
| `RecordStore.LoadSave` | scr/main.py:41-46 | Loading an absent file gives the empty mapping, not a failure. A saved object loads back unchanged. |
| `RecordStore.Names` | scr/main.py:78 | The keys in iteration order, one per entry. |
| `RecordStore.PutUpdates` | scr/main.py:130 | `models[name] = record` is a map update: `name` gets `record` and every other name keeps its record. |
| `RecordStore.PutOrder` | scr/main.py:130 | An existing key keeps its position. A new key is appended at the end. |
| `RecordStore.Put` | scr/main.py:130 | The entry count grows by one exactly when the name is new. |
| `RecordStore.PutKeepsUnique` | scr/main.py:130 | The assignment keeps the names unique. |
| `RecordStore.PutIdempotent` | scr/main.py:130 | Assigning the same record to the same name twice gives the same object as assigning it once. |
| `RecordStore.ToMap` | scr/main.py:78 | The store viewed as a name-to-record mapping, meant for stores with unique names. `RecordStore.ToMapKeys` and `RecordStore.ToMapAt` state its keys and values. |
| `RecordStore.ToMapKeys` | scr/main.py:78 | The mapping view's keys are exactly the stored names. |
| `RecordStore.ToMapAt` | scr/main.py:78-79 | With unique names, every entry is what the mapping view gives for its name. |
| `Commands.ArgText` | scr/main.py:124 | The argument text (the message with every `/добавить` deleted, then stripped) neither starts nor ends with whitespace. `Commands.ParseAdd` states that the accepted fields rebuild it around the separator. |
| `Commands.Fields` | scr/main.py:124 | The pieces of the argument text split on the field separator. `Commands.ParseAdd` accepts exactly when there are three. |
| `Commands.ParseAdd` | scr/main.py:124-128 | The result is present exactly when the argument text has three fields. The argument text is the message with every `/добавить` removed, then stripped. When present, the fields rebuild the argument text around the field separator (a bar between two spaces) and contain no separator. The name and the image path are non-empty and have no whitespace at their outer ends. The fields are the leftmost split: the first separator in the argument text ends the name, and the first separator after it ends the description. |
| `Commands.FieldsOfArgs` | scr/main.py:124-128 | For a stripped argument text that `split(" | ")` cuts into three fields: the fields rebuild it, hold no separator, the first and last are non-empty with no outer whitespace, and they lie at the leftmost separators. |
| `Commands.ThreeFields` | scr/main.py:124-128 | A stripped text that splits into three fields starts with a non-empty name and ends with a non-empty image path. |
| `Commands.ParseAddRejectsSingleField` | scr/main.py:124-127 | An argument text without the field separator (the empty argument among them) is refused. |
| `Commands.ParseAddWellFormed` | scr/main.py:124-128 | The text "/добавить NAME", separator, "DESC", separator, "IMAGE" parses into exactly those fields, when no field contains a bar character or the command token, the name does not start with whitespace and the image path does not end with it. |
| `Commands.LineOf` | scr/main.py:79 | The listing line `🔹 name: description` for one record. `Commands.ListingLines` states that the listing holds exactly one such line per record. |
| `Commands.Lines` | scr/main.py:78-79 | The record lines of the listing, each followed by a newline. `Commands.LinesAppend` states that they follow store order. |
| `Commands.Listing` | scr/main.py:73-80 | The listing reply for a loaded store. `Commands.ListingLines` states its text line by line, and `Handlers.BotState.Corpuses` proves the loop builds it. |
| `Commands.LinesOf` | scr/main.py:77-79 | There is one listing line per record, and line `k` is `🔹 name: description` of record `k`. |
| `Commands.LinesAppend` | scr/main.py:77-79 | The lines of two stores put together are the first store's lines, then the second's. |
| `Commands.ListingLines` | scr/main.py:73-80 | An empty store lists exactly "no buildings". Otherwise the listing, read line by line, is the title and then exactly one `🔹 name: description` line per record in store order. This needs names and descriptions without newlines. |
| `Commands.Shown` | scr/main.py:88-89 | A record is shown when its image path is present, non-empty and exists. `Commands.PhotosAreShownRecords` states that the gallery sends exactly the shown records' photos. |
| `Commands.Photos` | scr/main.py:86-91 | The gallery never sends more photos than there are records. |
| `Commands.PhotosAppend` | scr/main.py:87-91 | The photos of two stores put together are the first store's photos, then the second's. A skipped record does not stop later ones. |
| `Commands.PhotosAreShownRecords` | scr/main.py:86-91 | Every photo sent is the image of a record whose path is present, non-empty and exists, captioned with that record's description. Every such record's photo is sent. |
| `Commands.NoShownNoPhotos` | scr/main.py:87-91 | If no record has an existing image, the gallery sends nothing. |
| `Commands.StatsText` | scr/main.py:116 | The statistics reply. `Commands.StatsTextNumber` states that it is the fixed prefix followed by the user count in decimal. |
| `Commands.StatsTextNumber` | scr/main.py:116 | The statistics text is the fixed prefix followed by digits whose value is the user count. |
| `Handlers.BotState.constructor` | scr/main.py:38 | A fresh bot has no users and the store as found on disk. |
| `Handlers.BotState.Start` | scr/main.py:49-56 | The caller's id is added to `users`, the store is untouched, and the reply is the welcome text. |
| `Handlers.BotState.Corpuses` | scr/main.py:70-80 | The loop builds exactly the listing of the loaded store. No state changes. |
| `Handlers.BotState.Gallery` | scr/main.py:83-91 | The loop sends exactly the photos of the shown records, in store order. No state changes. |
| `Handlers.BotState.Stats` | scr/main.py:111-116 | A non-admin gets no message. The admin gets one message carrying the size of `users`. No state changes. |
| `Handlers.BotState.Add` | scr/main.py:119-133 | A non-admin gets no message and the store is unchanged. A text without exactly three fields gets the usage message and the store is unchanged. Otherwise the store maps the name to `{description, image}`, every other name keeps its record, the key order follows dict assignment, the names stay unique, and the reply names the model. |
| `Handlers.BotState.Handle` | scr/main.py:49-133 | Across all eight commands, only `/start` changes `users` and it only adds the caller. Only `/добавить` changes the store. The admin commands are silent for others. |
| `Handlers.StatsAfterStarts` | scr/main.py:52-116 | After a sequence of callers sends `/start` to a fresh bot, the admin's statistics report the number of distinct callers. |
| `Handlers.AddTwice` | scr/main.py:128-132 | Sending the same `/добавить` twice leaves the same store as sending it once. |
| `Handlers.AddThenList` | scr/main.py:73-80 | After the admin's "/добавить NAME", separator, "DESC", separator, "IMAGE" on a bot without a store file, the listing is the title and the single line `🔹 NAME: DESC`. |

## Left out

- The messaging transport is not modelled: `Bot`, `Dispatcher`, `Router`
  registration, `Command` filters, polling, `main` and the event loop. It is a
  foreign library. `Handlers.BotState.Handle` takes the already recognised
  command. How the library matches command text is not modelled, for example
  a `/добавить@botname` form, whose suffix `replace` would leave in the name.
- A message without text is not modelled. The model takes the message text
  as a string. When `message.text` is `None`, line 124 raises and
  `/добавить` sends nothing. Which messages the library delivers to the
  handler in that state is library behaviour and is not part of this model.
- The logging decorator and the logging setup are not modelled. They only
  produce side effects for observability.
- Loading the token and `ADMIN_ID` from the secrets module is not modelled.
  The admin id is a constructor argument and is compared to caller ids as a
  number.
- Real file I/O and JSON text are not modelled. This covers `open`,
  `json.load`/`json.dump` with `ensure_ascii` and `indent`, and the image
  bytes sent with a photo. The store file is abstract state whose save and
  load are the identity, and a photo names its path. The model's store is
  always an object whose records have a string `description` and an optional
  string `image`, so it leaves out the following cases, each with what the
  code does:
  - An I/O error while reading the store (line 44) aborts `/корпуса`,
    `/галерея` and `/добавить`. An error while writing it (lines 131-132)
    aborts `/добавить`. Line 131 opens the file with mode `"w"`, which empties
    it before `json.dump` writes, so a write that fails part-way leaves a
    cut-off file; every later load then fails on malformed JSON. An image that exists but cannot be opened, such as a
    directory, aborts `/галерея` at line 90 after the photos before it were sent.
  - Malformed JSON makes `json.load` (line 45) abort the same three handlers.
  - A top-level value that is not an object: when it is falsy (`[]`, `null`,
    `0`, `""`), `/корпуса` answers "Нет доступных корпусов." (lines 74-75);
    otherwise `/корпуса` aborts at line 78. `/галерея` aborts at line 87 and
    `/добавить` at line 130 in both cases.
  - A record without `description` aborts `/корпуса` at line 79. It aborts
    `/галерея` at line 91 only when its image is shown (line 89), after the
    photos before it were sent. `/добавить` writes it back unchanged.
  - A record that is not an object aborts `/корпуса` at line 79 and
    `/галерея` at line 88. `/добавить` writes it back unchanged.
  - Extra keys in a record abort nothing. `/корпуса` and `/галерея` read
    only `description` and `image`. `/добавить` writes every other record
    back with its extra keys, and only the overwritten record loses them
    (line 130).
  - A `description` that is not a string is printed by the f-string at
    line 79 in its Python text form; how the library handles it as a caption
    at line 91 is not modelled. An `image` that is neither a string nor
    `null` is not modelled; a missing or `null` image is the model's `None`.
- File existence is the `files` parameter, fixed for one gallery call. The
  model does not tie it to the store file's own presence.
- Concurrent `/добавить` handlers and their lost-update race are not
  modelled. The model is sequential.
- `/помощь`, `/новости` and `/ресурсы` have no behaviour to verify. They
  appear only as fixed texts sent by `Handlers.BotState.Handle`.
- Handlers.BotState.Handle: its contract states only the effect on `users` and
  the store and the admin gate. The replies of each command are stated by the
  handler method it calls.
