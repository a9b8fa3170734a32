# kada: the record store and the span lifecycle, in Dafny

kada is a command-line activity tracker. `kada start <name>` opens an
activity and `kada end <name>` closes it. `kada span add` records a finished
activity after the fact, `kada span remove` deletes one and `kada span`
lists them all. A *mark* is a named, timestamped point whose role is a name
suffix, `-start` or `-end`. A *span* is the interval from a start mark to an
optional end mark and is named after the start mark with its suffix cut.
Both are stored as JSON files in two directories, `marks` and `spans`. A
mark file is named after the mark. A span file is named after the span's
name followed by the base64url text of the SHA-256 digest of the start
timestamp's binary form.

The model has one module per part of the program:

- `Errors`: `Option`, `Result` and the errors the store and the commands return.
- `Base64Url`: the padded base64url encoding of section 5 of RFC 4648,
  with a decoder that proves the encoding injective.
- `Marks` (types/mark.go): marks and their suffixes.
- `Spans` (types/span.go): spans and their storage key.
- `Store` (db/db.go): the two directories as maps from entry file name to
  entry. Every store operation is a function from the old tables to the new
  tables and the error returned. The module also proves the facts the
  commands rely on, and a consistency invariant that every command keeps.
- `Db` (db/db.go): the class `DiskDb`, whose `marks` and `spans` fields the
  methods update as the Go code updates the directories. Each method is
  proved to have exactly the effect of the matching `Store` function. Both
  listing loops are written as loops.
- `StartCmd`, `EndCmd`, `SpanCmd` (cmd/start.go, cmd/end.go, cmd/span.go):
  each command's effect as a function `Run`, an `Exec` method on a `DiskDb`
  proved equal to it, and lemmas for each path through the command.

The model takes the following as parameters rather than defining them:

- The JSON encoders and decoders (`Store.Codec`).
- `time.Time.MarshalBinary` and `sha256.Sum256` (`Spans.Hashing`).
- `time.Now`; the parsing of the `-date` flag and of `span add`'s dates.
- The order in which `ReadDir` lists a directory: a sequence `names`
  constrained by `Store.IsListing`.

Time values are an abstract type `Marks.Instant`. Lemmas that need the JSON
codecs to give back what they were given state it as the hypothesis
`Store.Lossless`. This is an assumption that Go does not meet on every host.
`time.Time.MarshalBinary` writes the zone offset in minutes, or -1 for a time
in UTC. A local time at offset 0 is written to JSON with the zone `Z`, and
`Z` reads back as UTC. On a host whose local zone is at offset 0, the start
timestamp read back from a file therefore marshals differently from the one
`start` hashed, and its span key differs. `end` then deletes the start mark
and reports the span missing (`EndCmd.StartThenEndAfterZoneShift`).
`span remove` of that open span deletes its start mark and then fails to
remove the file (`Store.DeleteSpanMisplacedLosesMark`). This follows from
reading the code; the model states it with the differing timestamp as a
hypothesis.

`Store.Consistent` is the invariant the commands keep:

- every mark file decodes to a mark whose name leads back to that file;
- every span file decodes to a span that is named after its start mark and
  stored under its own key;
- every open span has its start mark stored.

`start`, `end`, `span add` and `span remove` each keep it
(`StartCmd.StartKeepsConsistent`, `EndCmd.EndKeepsConsistent`,
`SpanCmd.SpanKeepsConsistent`). `EndCmd.StartThenEnd` follows a name through
the whole lifecycle: starting and then ending it leaves the marks as they
were and adds exactly one closed span.

Where the code and the design description disagree, the model follows the
code:

- A new mark may already carry a suffix. `start x-end` stores `x-end-start`.
- Only one suffix is cut from a span's name. `start x-end` opens a span
  named `x-end`.

Two defects are modelled as written:

- `DeleteSpan` with no span of that name reaches the unguarded `spans[0]`
  (db/db.go:140). That is a run-time panic on an empty listing, and a nil
  dereference after `slices.DeleteFunc` clears the tail (Go 1.22 and
  later). The model returns `IndexOutOfRange` and changes nothing
  (`Store.DeleteSpanWithoutMatch`). Under Go 1.21, `DeleteFunc` does not
  clear the tail, so the code would go on with whichever span was listed
  first. That behaviour is not modelled.
- `GetAllMarks` does not stop at a file that fails to decode. It keeps an
  item for it, and only the last file's error is returned
  (`Store.DecodeAllInDirResult`, `Store.EarlierDecodeErrorIsLost`). The item
  is nil when the file cannot be read or is not well-formed JSON. For
  well-formed JSON of the wrong shape, `json.Unmarshal` returns a partly
  filled record beside its error; the model keeps None there too.

## Model

| member | source | states |
|---|---|---|
| Base64Url.Encode | types/span.go:34 | the padded encoding has 4 characters per started group of 3 bytes |
| Base64Url.EncodeAlphabet | types/span.go:34 | every character of an encoding is from the URL-safe alphabet or `=` |
| Base64Url.Regroup | types/span.go:34 | cutting three bytes into 6-bit values and joining them again gives the bytes back |
| Base64Url.DecodeEncode | types/span.go:34 | decoding the encoding of any byte string gives it back |
| Base64Url.EncodeInjective | types/span.go:34 | two byte strings with the same encoding are equal |
| Marks.NewMark | types/mark.go:15-21 | the new mark has the given name, description and timestamp |
| Marks.AsStart | types/mark.go:23-25 | the name gains `-start`; timestamp and description are unchanged |
| Marks.AsEnd | types/mark.go:27-29 | the name gains `-end`; timestamp and description are unchanged |
| Marks.CutSuffix | types/mark.go:31-45 | reports whether the suffix is there and returns the string before it, or the string unchanged |
| Marks.RemoveSuffix | types/mark.go:31-45 | `-start` is cut if present, else `-end` if present, else the mark is unchanged; other fields are kept |
| Marks.SuffixesExclusive | types/mark.go:47-53 | no string ends in both `-start` and `-end` |
| Marks.NotStartAndEnd | types/mark.go:47-53 | no mark is both a start mark and an end mark |
| Marks.AsStartIsStart | types/mark.go:23-53 | a mark made by AsStart is a start mark and not an end mark |
| Marks.AsEndIsEnd | types/mark.go:23-53 | a mark made by AsEnd is an end mark and not a start mark |
| Marks.RemoveSuffixOfStart | types/mark.go:23-45 | removing the suffix of AsStart(m) gives m back |
| Marks.RemoveSuffixOfEnd | types/mark.go:23-45 | removing the suffix of AsEnd(m) gives m back |
| Marks.RemoveSuffixStripsOnce | types/mark.go:23-45 | only one suffix is ever cut: AsStart(AsEnd(m)) loses `-start` and keeps `-end` |
| Spans.NewSpan | types/span.go:17-24 | the span has the given start and end marks and is named after the start mark with one suffix cut |
| Spans.NameWithTimestampHash | types/span.go:27-36 | fails exactly when MarshalBinary fails, with its error; otherwise the key is the name followed by 44 characters of the encoding alphabet |
| Spans.NewSpanOfStartMark | types/span.go:17-24 | a span made from AsStart(m) is named m.name |
| Spans.KeyDependsOnNameAndStartTime | types/span.go:27-36 | spans with the same name and start time have the same key, whatever their end mark and start mark name and description |
| Spans.OpenAndClosedSpanSameKey | types/span.go:17-36 | the open and the closed span made from one start mark have the same key |
| Spans.KeySeparatorOnlyFromName | types/span.go:27-36 | a key contains `/` exactly when the span's name does |
| Spans.KeyDeterminesNameAndDigest | types/span.go:27-36 | equal keys mean equal names and equal digests |
| Store.EntryNameInjective | db/db.go:247-253 | different keys never map to the same entry file |
| Store.CreateMark | db/db.go:59-73 | an existing entry of that name makes it fail with nothing changed; otherwise exactly that entry is added, holding the encoded mark on success, and an encoder failure is returned as is; spans are untouched |
| Store.DeleteMark | db/db.go:75-83 | succeeds exactly when the entry exists; removes only that entry; a missing name is reported with nothing changed |
| Store.GetMark | db/db.go:85-100 | a missing name is reported as not existing; a directory gives its read error; a file gives exactly its decoding, error or mark |
| Store.CreateMarkThenGetMark | db/db.go:59-100 | with a lossless codec, GetMark returns the mark just created |
| Store.CreateMarkTwice | db/db.go:59-73 | a second CreateMark of the same name fails and leaves the first mark as it was |
| Store.DeleteMarkThenGetMark | db/db.go:75-100 | after DeleteMark, GetMark reports that the mark does not exist |
| Store.DecodeAllInDirResult | db/db.go:206-230 | one item per non-directory entry in listing order, None where decoding failed; the error is that of the last file only |
| Store.EarlierDecodeErrorIsLost | db/db.go:217-227 | a failing file followed by a good one yields a nil item and no error |
| Store.CreateSpan | db/db.go:106-125 | fails with nothing changed when the key is taken or cannot be computed; otherwise adds exactly that key's entry; a MarshalBinary or encoder failure is returned as is; marks are untouched |
| Store.UpdateSpan | db/db.go:158-176 | fails with nothing changed when the key is absent; otherwise rewrites that entry in place; a MarshalBinary or encoder failure is returned as is; the key set and marks are unchanged |
| Store.GetSpan | db/db.go:178-181 | a missing key gives the missing-file error; a directory gives its read error; a file gives exactly its decoding, error or span |
| Store.CreateSpanThenGetSpan | db/db.go:106-125 | with a lossless codec, GetSpan of the span's key returns the span just created |
| Store.ReadAllSucceeds | db/db.go:183-204 | the listing succeeds exactly when every entry decodes, and then holds one span per entry in listing order |
| Store.ReadAllFirstError | db/db.go:191-198 | a failed listing reports the error of the first entry that fails |
| Store.ReadAllPrefixFails | db/db.go:191-198 | once a prefix of the listing fails, the whole listing fails the same way |
| Store.Matching | db/db.go:133-135 | the result holds exactly the spans of that name, and no more spans than the listing |
| Store.MatchingPositions | db/db.go:133-137 | the matches are the spans at exactly the listing positions holding that name, in increasing order, so their number is the number of such spans |
| Store.MatchingNone | db/db.go:133-135 | with no span of that name nothing matches |
| Store.MatchingAtLeastTwo | db/db.go:133-137 | two spans of that name make at least two matches |
| Store.MatchingSingle | db/db.go:133-140 | a name held at exactly one position matches exactly that span |
| Store.DeleteSpanListingFails | db/db.go:127-131 | a listing failure is returned as is and nothing is deleted |
| Store.DeleteSpanAmbiguous | db/db.go:127-138 | two stored spans of that name make DeleteSpan fail and delete nothing, with TooManySpans and the number of matches once every entry decodes, else the listing's error |
| Store.DeleteSpanWithoutMatch | db/db.go:127-140 | with no span of that name DeleteSpan reaches the unguarded index; nothing is deleted |
| Store.DeleteSpanSingle | db/db.go:127-156 | with one match, wherever it is stored, DeleteSpan is the removal step for that span |
| Store.RemoveSpanEffect | db/db.go:140-156 | an open span's missing start mark is reported with nothing changed; otherwise the mark is deleted and the entry at the recomputed key is removed, or the hash error or the missing entry is reported with the mark still deleted |
| Store.DeleteSpanSingleAtKey | db/db.go:127-156 | with one match stored at its own key, a closed span's entry is removed and nothing else changes; an open span's start mark is removed too; a missing start mark is reported with the span still stored |
| Store.DeleteSpanMisplacedLosesMark | db/db.go:140-155 | an open match whose file is not at its recomputed key loses its start mark and the removal reports the missing entry |
| Store.CreateMarkKeepsConsistent | db/db.go:59-73 | with a lossless codec, CreateMark keeps the store consistent and on success holds the mark |
| Store.WriteSpanKeepsConsistent | db/db.go:106-176 | writing a span named after its start mark, with its open mark stored, under its own key keeps the store consistent |
| Store.CreateSpanKeepsConsistent | db/db.go:106-125 | CreateSpan of such a span keeps the store consistent |
| Store.UpdateSpanKeepsConsistent | db/db.go:158-176 | UpdateSpan of such a span keeps the store consistent |
| Store.OpenSpansShareMarkOnlyIfSame | db/db.go:140-147 | two stored open spans with the same start mark entry are the same entry |
| Store.OpenSpanOfMark | db/db.go:140-147 | the only open span depending on a stored mark is stored at that mark's span key |
| Store.DeleteStartMarkSpoilsOnlyItsSpan | cmd/end.go:47-49 | deleting a stored start mark leaves every span entry well formed except that of the span it starts |
| Store.UpdateClosedSpanRestores | cmd/end.go:51-52 | rewriting that entry with the closed span makes the store consistent again |
| Store.RemoveStoredSpanKeepsConsistent | db/db.go:140-156 | removing a span, and its start mark when it is open, keeps the store consistent |
| Store.RemoveStoredSpan | db/db.go:140-156 | in a consistent store, the removal step for a stored span succeeds and removes its entry and, if open, its start mark |
| Store.SingleMatchIsStored | db/db.go:128-140 | the one span of that name in the listing is stored in a listed entry |
| Store.DeleteSpanKeepsConsistent | db/db.go:127-156 | DeleteSpan keeps a consistent store consistent |
| Marks.WithSuffix | types/mark.go:71-75 | no ensures; specified by Marks.AsStart and Marks.AsEnd |
| Marks.HasSuffix | types/mark.go:31-45 | no ensures; specified by Marks.CutSuffix and Marks.SuffixesExclusive |
| Marks.IsStart | types/mark.go:47-49 | no ensures; specified by Marks.AsStartIsStart and Marks.NotStartAndEnd |
| Marks.IsEnd | types/mark.go:51-53 | no ensures; specified by Marks.AsEndIsEnd and Marks.NotStartAndEnd |
| Store.EntryName | db/db.go:247-253 | no ensures; specified by Store.EntryNameInjective |
| Store.FileExists | db/db.go:255-258 | no ensures; used by the operations whose contracts state each existence case |
| Store.DecodeFromFile | db/db.go:232-239 | no ensures; specified by Store.GetSpan and Store.ReadAllSucceeds |
| Store.CreateMarkEntry | db/db.go:241-245 | no ensures; specified by Store.CreateMark |
| Store.DecodeAllInDir | db/db.go:206-230 | no ensures; specified by Store.DecodeAllInDirResult and Store.EarlierDecodeErrorIsLost |
| Store.GetAllMarks | db/db.go:102-104 | no ensures; specified by Store.DecodeAllInDirResult |
| Store.ReadAll | db/db.go:190-203 | no ensures; specified by Store.ReadAllSucceeds, Store.ReadAllFirstError and Store.ReadAllPrefixFails |
| Store.GetAllSpans | db/db.go:183-204 | no ensures; specified by the same lemmas |
| Store.DeleteSpan | db/db.go:127-156 | no ensures; specified by Store.DeleteSpanListingFails, Store.DeleteSpanAmbiguous, Store.DeleteSpanWithoutMatch, Store.DeleteSpanSingle and Store.DeleteSpanKeepsConsistent |
| Store.RemoveSpan | db/db.go:140-156 | no ensures; specified by Store.RemoveSpanEffect and Store.RemoveStoredSpan |
| Db.DiskDb.constructor | db/db.go:37-57 | the store object starts with the given directories and configuration |
| Db.DiskDb.CreateMarkEntry | db/db.go:241-245 | exclusive creation of an empty mark file, as in Store.CreateMarkEntry |
| Db.DiskDb.CreateMark | db/db.go:59-73 | the new state and error are those of Store.CreateMark |
| Db.DiskDb.DeleteMark | db/db.go:75-83 | the new state and error are those of Store.DeleteMark |
| Db.DiskDb.GetMark | db/db.go:85-100 | returns Store.GetMark of the current state |
| Db.DiskDb.GetAllMarks | db/db.go:206-230 | the loop returns exactly Store.GetAllMarks of the current state |
| Db.DiskDb.CreateSpan | db/db.go:106-125 | the new state and error are those of Store.CreateSpan |
| Db.DiskDb.DeleteSpan | db/db.go:127-156 | the new state and error are those of Store.DeleteSpan |
| Db.DiskDb.UpdateSpan | db/db.go:158-176 | the new state and error are those of Store.UpdateSpan |
| Db.DiskDb.GetSpan | db/db.go:178-181 | returns Store.GetSpan of the current state |
| Db.DiskDb.GetAllSpans | db/db.go:183-204 | the loop, stopping at the first failure, returns exactly Store.GetAllSpans of the current state |
| StartCmd.Run | cmd/start.go:29-59 | no ensures; specified by the StartCmd lemmas |
| StartCmd.Exec | cmd/start.go:29-59 | the new state and error are those of StartCmd.Run |
| StartCmd.StartWithoutArgs | cmd/start.go:30-34 | without a name it fails and changes nothing |
| StartCmd.StartWithBadDate | cmd/start.go:42-46 | a date that does not parse is reported before anything is stored |
| StartCmd.StartWhileOpen | cmd/start.go:51-55 | when `<name>-start` is stored it fails with nothing changed and no span created |
| StartCmd.StartStoresOpenSpan | cmd/start.go:29-59 | stores mark `<name>-start` with the given description and the parsed date or now, and the open span `<name>` under its key; succeeds exactly when neither entry is taken and the key can be computed; no other mark changes; a failing span leaves the mark stored |
| StartCmd.StartKeepsConsistent | cmd/start.go:29-59 | start keeps the store consistent |
| EndCmd.Run | cmd/end.go:26-53 | no ensures; specified by the EndCmd lemmas |
| EndCmd.Exec | cmd/end.go:26-53 | the new state and error are those of EndCmd.Run |
| EndCmd.EndWithoutArgs | cmd/end.go:27-31 | without a name it fails and changes nothing |
| EndCmd.EndWithoutStartMark | cmd/end.go:40-43 | without a stored `<name>-start` it fails with nothing changed |
| EndCmd.EndTargetsStartKey | cmd/end.go:45-52 | the closing span has the key of the open span made from the same start mark |
| EndCmd.EndClosesSpan | cmd/end.go:26-53 | with the start mark and its open span stored, end succeeds: the mark is gone, the span's entry holds the span closed by `<name>-end` with the given description at now, and the key set is unchanged |
| EndCmd.EndWithoutSpanLosesMark | cmd/end.go:47-52 | when the span is missing, the start mark is deleted anyway and the missing span is reported |
| EndCmd.EndKeepsConsistent | cmd/end.go:26-53 | end keeps the store consistent |
| EndCmd.StartThenEnd | cmd/end.go:26-53 | start then end of a fresh name leaves the marks as they were and adds exactly one entry, holding the closed span from the start mark to the end mark |
| EndCmd.StartThenEndAfterZoneShift | cmd/end.go:38-52 | when the start mark reads back with a timestamp of another key, start succeeds and end deletes the start mark, reports the span missing and leaves the open span stored |
| SpanCmd.List | cmd/span.go:77-87 | no ensures; specified by SpanCmd.ListShowsEverySpan |
| SpanCmd.Run | cmd/span.go:29-75 | no ensures; specified by the SpanCmd lemmas |
| SpanCmd.ListSpans | cmd/span.go:77-87 | returns the listing's error with nothing printed, or every listed span in order |
| SpanCmd.Exec | cmd/span.go:29-75 | the new state, error and printed spans are those of SpanCmd.Run |
| SpanCmd.ListShowsEverySpan | cmd/span.go:31-37 | listing changes nothing; it succeeds exactly when every entry decodes and then prints one span per entry in order; otherwise it prints nothing and reports the error of the first entry that fails |
| SpanCmd.RemoveWithoutName | cmd/span.go:38-42 | `remove` without a name fails and changes nothing |
| SpanCmd.RemoveIsDeleteSpan | cmd/span.go:38-49 | `remove <name>` has exactly the effect of one DeleteSpan of that name |
| SpanCmd.AddFailsEarly | cmd/span.go:50-67 | `add` with fewer than three operands fails with its argument error, and otherwise with the error of the first date that does not parse; nothing changes |
| SpanCmd.AddCreatesClosedSpan | cmd/span.go:50-71 | `add` is one CreateSpan of the closed span between undescribed marks `<name>` at the two dates, named after the start mark; marks are untouched and the dates' order is not checked |
| SpanCmd.UnknownSubcommand | cmd/span.go:72-73 | any other subcommand does nothing and reports no error |
| SpanCmd.SpanKeepsConsistent | cmd/span.go:29-75 | every `span` subcommand keeps the store consistent |

## Left out

- Filesystem failures are not modelled: a `ReadFile`, `WriteFile`, `Remove` or `ReadDir` call that fails for a reason of its own (permissions, a full disk). The directories are maps, and the only errors are the ones the store's logic raises.
- `os.Remove` of a directory entry is modelled as removal. Go fails on a non-empty directory; the model does not.
- `Store.UpdateSpan`: when the span's entry is a directory, the model replaces it with a file and succeeds. Go's `os.WriteFile` fails there.
- `Setup` (db/db.go:50-57) creates the two directories and is not modelled. The `DiskDb` constructor starts from existing tables.
- Go builds paths with `path.Join` and `Sprintf`. The model treats the path of a key as the key itself, which holds only for keys without `/` and `..`. The code does not check this.
- The JSON encoders and decoders (types/encoder.go, types/decoder.go, db/config.go) are abstract codecs. JSON `null`, which Go decodes to a nil record with no error, is not modelled. Only the file extension `"json"` is kept.
- SHA-256 and `time.Time.MarshalBinary` are abstract functions, and time values are an abstract type.
- `time.Now` and `time.ParseInLocation` are parameters. The `String` methods and local-time formatting (types/mark.go:55-69, types/span.go:38-79) are not modelled.
- Store.DecodeFromFile: a decode error comes without a value. Go's `json.Unmarshal` may return a partly filled record beside its error, and `decodeAllInDir` keeps that record; the model keeps None.
- Strings are sequences of characters. Go's `len`, `strings.HasSuffix` and `strings.CutSuffix` work on bytes. The suffixes are ASCII, so cutting behaves the same, but `Spans.NameWithTimestampHash`'s length is stated in characters, not bytes.
- `NameWithTimestampHash`: the model returns only the error. Go also returns an empty string beside it, and no caller reads it.
- `Db.DiskDb.GetAllSpans`: on an error, Go also returns the spans read so far, and no caller reads them. The model returns only the error.
- `Db.DiskDb.DeleteSpan`: `slices.DeleteFunc` compacts the listing in place. The model filters it as a value (`Store.Matching`). Under Go 1.21, with no match, `spans[0]` is the first span listed rather than a nil; this is not modelled.
- `os.ReadDir` returns the entries sorted by file name. The model does not compute that order: the listing is an input naming every entry once (`Store.IsListing`), and every lemma holds for any such order, the sorted one included.
- The `span remove` success message and each span's printed text are not modelled. A listing is the sequence of spans printed.
- The unexported `parent` field of a span is not modelled: it is unused and not stored.
- cmd/root.go, cmd/shared.go and main.go are not modelled: command dispatch, environment lookup, flag parsing, usage output and the entry point. A command's input is its positional arguments, plus `-date` for `start`.
- Concurrent processes are not modelled. The model's exclusive creation is the single-process guarantee only.
