# rlog rotation core in Dafny

This project models the core of the `rotation` package of rlog, a Go logging library built on `log/slog`. The package has two parts:

- **`DefaultHandler`**, a text handler for `slog`. It writes one line per record: the time, the level, the source location when asked for, the message, and then `key=value` pairs. Keys are dotted by the groups they sit in, and a value is quoted when the quoting rule says it must be.
- **`Logger`**, an `io.WriteCloser` that rotates its file. Before every write it decides whether to move to a new file. Under the daily policy this happens once a day at a set hour and minute. Under the size policy it happens once the current file has reached a byte limit; the writer then cycles through a fixed ring of numbered slot files, and a reused slot's file is deleted before it is reopened.

Everything is pure functions over immutable values:

- The handler's `handleState` becomes a `State` record.
- A handler is a `Handler` record, and `Handle` returns the line it would write.
- The file system is an `FS` value mapping file names to contents. Each file operation returns the next `FS`.
- The clock reading, the executable's directory and `time.Time.Format` are parameters.
- Parts of Go's standard library the handler calls are fields of a `Lib` parameter: the Unicode tables, `strconv.Quote`, float and duration formatting, and `fmt`'s rendering of arbitrary values. What the model proves holds for any such functions.

Modules:

| module | file | models |
|---|---|---|
| `Wrappers` | wrappers.dfy | `Option` / `Result` |
| `Bytes` | bytes.dfy | byte strings, `strconv.Itoa`, `WritePosIntWidth`, `strings.LastIndex` |
| `Utf8` | utf8.dfy | `utf8.DecodeRuneInString` with Go's accept ranges |
| `Quoting` | quoting.dfy | `needsQuoting` and `safeSet` |
| `Slog` | slog.dfy | the slog values the handler consumes; `countEmptyGroups` and `isEmptyGroup` of rotation/var.go |
| `Encoder` | encoder.dfy | `handleState`: `appendString`, `appendKey`, `appendAttr`, group opening and closing, `appendTime`, `appendTextValue` |
| `Flattening` | flatten.dfy | a declarative reading of `appendAttr`: attribute tree to list of leaves to text |
| `Handler` | handler.dfy | `NewDefaultHandler`, `Enabled`, `Handle`, `WithAttrs`, `WithGroup` |
| `FileSystem` | filesystem.dfy | `os.Remove`, `os.OpenFile`, `File.Stat`, `File.Write`, `File.Close`, `os.MkdirAll` |
| `PathName` | pathname.dfy | `getPathFileName` |
| `Rotation` | rotate.dfy | `Logger`: constructors, `openNewSizeFile`, `openNewDailyFile`, `rotate`, `Write`, `Close` |

### Behaviour worth knowing

Some consequences of the code are easy to miss when reading it:

- **Backslash and quoting.** `needsQuoting` exempts the backslash explicitly, so `C:\tmp` is written bare (`Quoting.QuotingExamples`).
- **Time fraction.** `appendTime` writes `nanosecond / 1e3`, which is microseconds, padded to at least three digits (`Encoder.TimeTextFields`).
- **Empty-key groups.** A comment in `appendAttr` speaks of inlining a group with an empty key into its parent. But `appendAttr` returns early on any empty key before it looks at groups, so such a group writes nothing (`Encoder.RenderAttr`).
- **Size rotation.** Rotation is decided before a write, and only once the count has reached the limit. With a 100-byte limit, two slots and three 60-byte writes, the first two writes both go to slot 0, which ends with 120 bytes, and the third goes to slot 1 (`Rotation.SizeExample`).
- **Attributes given to `WithAttrs`.** These are pre-formatted into the handler, but `Handle` never writes the pre-formatted bytes. Attributes attached this way therefore never appear in the output (`Handler.WithAttrsInvisible`).
- **The source field.** It is preceded by two spaces. The level is followed by a separator, and `appendKey` writes the state's separator again (`Handler.SourceFieldWithoutHook`).
- **Groups seen by the hook.** While the time, level, source and message are written, the state's group list is nil. The `ReplaceAttr` hook is therefore handed a nil list for the source attribute, whatever groups the handler has (`Handler.BuiltInsIgnoreGroups`). A record attribute outside any group gets an empty list that is not nil, because with a hook the list is always allocated (rotation/default.go:150-152); a hook can tell the two apart (`Encoder.HookSeesNil`).

## Model

| member | source | states |
|---|---|---|
| Quoting.NeedsQuotingByRunes | rotation/default.go:393-415 | A string needs quoting iff it is empty or one of the runes the scan decodes forces quotes. A forcing rune is an ASCII byte of the forcing set, `RuneError`, white space or non-printable. |
| Quoting.AsciiNeedsQuoting | rotation/default.go:399-406 | For an all-ASCII string the decision is exact. It is quoted iff it is empty or contains a control byte, a space, `=` or `"`. A backslash or DEL alone never forces quotes. |
| Quoting.ForcedByteForcesQuoting | rotation/default.go:397-413 | A control byte, space, `=` or `"` anywhere in the string forces quoting. A multi-byte rune never swallows such a byte. |
| Quoting.AsciiForcesQuotingExactly | rotation/default.go:399-402 | Among ASCII bytes, exactly the controls, space, `=` and `"` force quoting. The backslash is exempt although `safeSet` excludes it, and DEL is let through. |
| Quoting.ScanStep | rotation/default.go:397-413 | Each step of the scan either decides on the rune decoded at the current offset or moves past it. An ASCII byte is its own rune of length one. |
| Quoting.QuotingExamples | rotation/default.go:393-415 | The empty string and `a=b` are quoted. A lone backslash, DEL and `C:\tmp` are not. |
| Utf8.DecodeRune | rotation/default.go:408 | The decoded length is 1 to 4 bytes and within the string. An ASCII byte decodes to itself with length 1. Every byte after the first that is consumed is a continuation byte. A non-ASCII first byte never gives an ASCII rune, and consuming it alone means `RuneError`. |
| Utf8.EncodeDecode | rotation/default.go:408 | Decoding the UTF-8 encoding of any scalar value gives it back with its length, whatever bytes follow. |
| Utf8.DecodeEncode | rotation/default.go:408 | Whatever the decoder accepts as a multi-byte rune is a scalar value whose encoding is exactly the bytes consumed. |
| Slog.EmptyGroupIsShallow | rotation/var.go:16-25 | A group with no attributes is empty. A group whose only member is an empty group is not, and neither is a `LogValuer` that would resolve to an empty group, because the test neither recurses nor resolves. |
| Slog.CountEmptyGroups | rotation/var.go:6-25 | The count is at most the number of attributes. It equals that number iff every attribute's value is a group with no attributes, which includes the empty list. |
| Slog.Resolve | rotation/default.go:246-249 | Resolving never leaves a `LogValuer`, leaves every other kind unchanged, and never grows the value. |
| Encoder.StringText | rotation/default.go:296-302 | A string is written as it is when it needs no quoting, and otherwise in its Go-quoted form. |
| Encoder.AppendKey | rotation/default.go:284-294 | Writes the pending separator, the prefixed key under the quoting rule, and `=`. Afterwards the separator is one space. Prefix and groups are unchanged. |
| Encoder.OpenGroup | rotation/default.go:205-212 | The prefix grows by `name.`. A group list gains `name`, and a nil list stays nil. The output is unchanged. |
| Encoder.CloseGroup | rotation/default.go:215-220 | Cuts `len(name)+1` bytes off the prefix. A group list loses its last name, and a nil list stays nil. The output is unchanged. |
| Encoder.CloseAfterOpen | rotation/default.go:205-220 | Closing a group right after opening it gives back exactly the state before. |
| Encoder.OpenGroups | rotation/default.go:194-198 | Opening a list of groups appends each name and a dot to the prefix, in order, and appends the names to a group list that is not nil. |
| Encoder.TimeTextFields | rotation/default.go:311-328 | For a four-digit year the time text has `-`, `-`, `T`, `:`, `:`, `.` in fixed columns. Every field reads back from its columns. The fraction reads back as the microseconds, three to six digits long. |
| Encoder.TimeText | rotation/default.go:311-328 | The time text is at least 23 bytes long and holds only ASCII bytes that do not force quoting. |
| Encoder.ValueText | rotation/default.go:338-376 | Integers, booleans and times are written without the quoting rule. Their text is non-empty and holds no byte that would force quoting, so it reads as a single bare token. |
| Encoder.BareValues | rotation/default.go:340-367 | For integers, booleans and times the quoting rule would leave the text unchanged. Unsigned and signed integers parse back from their text. |
| Encoder.Prepare | rotation/default.go:239-261 | The prepared value is never a `LogValuer` and never a `*slog.Source`. When the hook applies, it is called once with the current group list, nil included, and the key-preserving, resolved attribute. Key and resolved value are then taken from its result. Otherwise the key is kept and the value is resolved. In both cases a `*slog.Source` becomes the string `file:line`. Without the hook, a group is smaller than the input. |
| Encoder.HookSeesNil | rotation/default.go:240-247 | The hook is handed the group list itself. A hook can therefore tell the nil list of the built-in fields from the empty list of a record attribute outside any group, and drop an attribute only in the first case. |
| Encoder.RenderAttr | rotation/default.go:239-282 | Rendering only appends to the output and gives prefix and groups back unchanged. An attribute whose prepared key is empty, or whose value is an empty group, writes nothing. |
| Encoder.RenderAttrs | rotation/default.go:271-273 | Rendering a list only appends to the output and keeps prefix and groups. |
| Flattening.Flatten | rotation/default.go:263-281 | Every leaf an attribute contributes carries a key that starts with the current prefix and a value that is not a group. |
| Flattening.RenderAttrPrintsLeaves | rotation/default.go:239-294 | Rendering an attribute with `appendAttr` gives the same state as printing its flattened leaves as space-separated `key=value` pairs after the pending separator. |
| Flattening.RenderAttrsPrintsLeaves | rotation/default.go:229-232 | The same holds for a list of attributes rendered in order. |
| Flattening.PrintAppend | rotation/default.go:284-294 | Printing two lists of leaves is printing the first, then the second with a space before it when the first was non-empty. |
| Handler.NewDefaultHandler | rotation/default.go:33-39 | A new handler keeps its options and starts with no pre-formatted bytes, no prefix and no groups. |
| Handler.Enabled | rotation/default.go:41-47 | A level passes iff it is at least the configured minimum, or at least Info when none is set. |
| Handler.EnabledMonotone | rotation/default.go:41-47 | A handler that takes a level takes every higher one. |
| Handler.NewHandlerEnables | rotation/default.go:33-47 | A new handler takes exactly the levels at or above the configured minimum, or at or above Info when none is set. It takes Error records unless the minimum is above Error. |
| Handler.DerivedEnabled | rotation/default.go:87-130 | Handlers derived with `WithAttrs` or `WithGroup` filter levels exactly as the receiver does. |
| Handler.Clone | rotation/default.go:119-130 | The copy equals the receiver in every field. |
| Handler.Handle | rotation/default.go:49-85 | Every line ends in a newline. |
| Handler.HandleLayout | rotation/default.go:49-85 | The line is, in order: the time and a space unless the time is zero; the level and a space; the source field for Debug and Error records when sources are enabled; the message; the record's attributes; a newline. The attributes are under the folded prefix plus the pending groups, and a record without attributes adds nothing. |
| Handler.BuiltIns | rotation/default.go:53-74 | After the built-ins the separator is one space, no prefix is open and the group list is nil. The buffer starts with the time and level text and ends with the message text. |
| Handler.BuiltInsLayout | rotation/default.go:53-74 | Before the record's attributes the buffer holds exactly the time and level text, the source field and the message. The separator is then one space, no prefix is open and the group list is nil, so the hook sees no groups for the built-in fields. |
| Handler.BuiltInsIgnoreGroups | rotation/default.go:53-77 | Two handlers with the same options write the same built-ins for a record, whatever groups or pre-formatted bytes either has. |
| Handler.AppendNonBuiltIns | rotation/default.go:222-234 | A record without attributes leaves the state unchanged. Otherwise the output only grows, the prefix gains the folded group prefix and the pending groups, and the pending groups are added to the group list. |
| Handler.NonBuiltInsLayout | rotation/default.go:222-234 | `appendNonBuiltIns` appends exactly the attributes field. A record without attributes adds nothing, not even the group prefix. |
| Handler.HandleIgnoresPreformatted | rotation/default.go:49-85 | The line does not depend on the handler's pre-formatted bytes. |
| Handler.SourceFieldWithoutHook | rotation/default.go:66-71 | Without a hook the source field is a space, `source=`, the quoted-if-needed `file:line`, and a space. |
| Handler.WithAttrs | rotation/default.go:87-111 | A list made only of empty groups returns the receiver. Otherwise the result has the same options and groups, folds all its groups into the prefix, and only extends the pre-formatted bytes. |
| Handler.WithAttrsPreformats | rotation/default.go:95-104 | The pre-formatted bytes grow by exactly the printed leaves of the new attributes. There is a leading space only when bytes were already there. |
| Handler.WithAttrsInvisible | rotation/default.go:87-111 | Every line a handler derived with `WithAttrs` writes is the line the original handler writes. |
| Handler.WithGroup | rotation/default.go:113-130 | The derived handler is the receiver with exactly one more group name. |
| Handler.WithGroupNests | rotation/default.go:113-117 | A new group extends the prefix of the next record's attributes by `name.`. |
| Handler.HandleExample | rotation/default.go:49-85 | In group `g`, a record at Info with zero time, attributes `k1=3`, `k2=v2` and an empty group is written as `INFO msg g.k1=3 g.k2=v2`. The empty group leaves no trace. |
| FileSystem.Remove | rotation/rotate.go:176 | Succeeds iff the file exists and is not refused. It then deletes exactly that file, and otherwise changes nothing. |
| FileSystem.OpenAppend | rotation/rotate.go:181 | Succeeds iff the path is not refused. An existing file keeps its contents, and a missing one is created empty. |
| FileSystem.WriteTo | rotation/rotate.go:203 | A nil handle and a closed standard output fail and write nothing. Otherwise all bytes are appended to the handle's file or to standard output, and no other file changes. |
| FileSystem.CloseHandle | rotation/rotate.go:226 | Closing standard output closes it for good, and closing it again fails. File contents never change. |
| FileSystem.MkdirAll | rotation/rotate.go:286 | Succeeds iff the path is non-empty and not refused. |
| PathName.Split | rotation/rotate.go:256-274 | The directory part is the name up to and including its last `/`. Prefix and suffix are non-empty and contain no `/`. |
| PathName.SplitNameExt | rotation/rotate.go:257-264 | `dir/name.ext` splits into exactly `dir/`, `name` and `.ext`, which concatenate back to the name. |
| PathName.SplitNoDot | rotation/rotate.go:265-272 | A name without a dot keeps its base name as prefix and gets `.log`. |
| PathName.SplitTrailingDot | rotation/rotate.go:260-272 | A name ending in a dot keeps what precedes the dot and gets `.log`. |
| PathName.SplitDotInDirectory | rotation/rotate.go:260-270 | When the only dots are in the directory part, as in `a.b/c`, the base name is dropped for `out` and the suffix is `.log`. |
| PathName.SplitHiddenName | rotation/rotate.go:260-273 | `dir/.env` gives `out` and `.env`. A bare `.env` gives `out` and `.log`, because the dot at index 0 fails the `> 0` test. |
| PathName.SplitBareDot | rotation/rotate.go:256-274 | A name that is only a dot, with or without a directory, gets both defaults: `out` and `.log`. |
| PathName.SplitDirectoryOnly | rotation/rotate.go:256-274 | A name ending in `/` gives `out.log` inside that directory. |
| PathName.GetPathFileName | rotation/rotate.go:254-287 | The empty name fails. An absolute name keeps its directory. Any other name is placed under the executable's directory, whose error is reported. The result succeeds iff the directory can be created, and then the directory ends in `/`. |
| Rotation.SlotNames | rotation/rotate.go:115-120 | There is one name per slot: `path + prefix + decimal index + suffix`. |
| Rotation.SlotNamesDistinct | rotation/rotate.go:115-120 | Different slots never share a file name. |
| Rotation.SlotStep | rotation/rotate.go:169-190 | One loop iteration advances the index cyclically. It succeeds iff the slot is not refused and, when this logger used the slot before, its file exists. On success a used slot's file is recreated empty, an unused slot's file is kept or created, the count is its length, the slot is marked used, and no other file changes. A failure changes nothing else. |
| Rotation.OpenNewSizeFileFrom | rotation/rotate.go:165-194 | The loop terminates. On success the count is below the limit and the handle is the current slot's file, whose length is the count. On failure the count is still at or above the limit. Below the limit nothing happens. |
| Rotation.OpenNewSizeFile | rotation/rotate.go:165-194 | Below the limit nothing is opened and no file and no error are returned. On success after rotating, the count is below the limit, and the handle is the current slot's file, which is marked used and whose length is the count. On failure the count is still at or above the limit. |
| Rotation.SlotLoopKeepsUsed | rotation/rotate.go:190 | A slot marked used stays marked used. |
| Rotation.SlotLoopKeepsOthers | rotation/rotate.go:165-194 | Files that are not slots are neither created, removed nor changed by the slot loop. |
| Rotation.NextSlotKept | rotation/rotate.go:168-193 | When the next slot is unused and its file is missing or below the limit, the loop stops there after one step and appends to what the file holds. |
| Rotation.NextSlotOverwritten | rotation/rotate.go:174-189 | When the next slot was used, its file is removed and recreated empty, and the count restarts at 0. |
| Rotation.Cutover | rotation/rotate.go:154-157 | The cutover lies at the configured time of day, as a whole number of days from it. |
| Rotation.CutoverIsLatest | rotation/rotate.go:154-157 | For a time of day inside one day, the cutover is the latest instant at that time of day not after now. |
| Rotation.DailySchedule | rotation/rotate.go:214-218 | A daily file opened at `t` is replaced by a write at `now` iff a scheduled time of day lies strictly between the two. |
| Rotation.NegativeOffsetAlwaysRotates | rotation/rotate.go:154-157 | With a time of day more than a day before midnight, every later write reopens the file. |
| Rotation.LateOffsetCutoverInFuture | rotation/rotate.go:154-157 | With a time of day two or more days ahead, the cutover stays in the future even after moving back one day. |
| Rotation.OpenNewDailyFile | rotation/rotate.go:148-162 | A name that does not resolve leaves logger and files unchanged and fails. Otherwise the cutover is recomputed and the dated file is opened for append. |
| Rotation.RotationDue | rotation/rotate.go:211-224 | For a daily file, rotation depends only on the clock and, once due, stays due as time passes. For a sized file it is due iff the count has reached the limit, whatever the time. |
| Rotation.Rotate | rotation/rotate.go:209-233 | Nothing happens unless rotation is due. When it is due, the policy's opener runs, the old handle is closed, and the logger continues on the new file, or on standard output when opening failed. |
| Rotation.Write | rotation/rotate.go:197-206 | Rotates first, then writes to the current handle. The count grows by exactly the bytes written: all of them, or none on an error. |
| Rotation.WriteKeepsTracking | rotation/rotate.go:197-233 | While rotations succeed, a size-policy logger writes through its current slot file, whose length is the count. The bytes are appended to that file, and the count before a write is below the limit. |
| Rotation.SizeFailureRetries | rotation/rotate.go:219-229 | A failed size rotation falls back to standard output with the count still at the limit, so the next write retries. |
| Rotation.RepeatedFailureClosesStdout | rotation/rotate.go:225-229 | A second failed rotation while on standard output closes it, and the write that follows fails and loses its bytes. |
| Rotation.Close | rotation/rotate.go:235-245 | Closing forgets the handle and returns the handle's close error. A logger on standard output closes standard output for good. File contents never change. Without a handle it returns nothing and changes nothing. |
| Rotation.CloseIdempotent | rotation/rotate.go:236-245 | A second close returns no error and changes nothing. |
| Rotation.NewSizeLogger | rotation/rotate.go:94-124 | Limits are normalised to 1 MiB and 10 slots. The slot names are built from the resolved name. There is no logger iff the name does not resolve. The logger has a file iff no error is returned, and it then writes through its current slot. |
| Rotation.FreshSizeLogger | rotation/rotate.go:101-120 | Before its first open a size logger has index -1, a byte count equal to the limit, one name per slot, every slot unused and no file. |
| Rotation.NewSizeLoggerStartsAtSlotZero | rotation/rotate.go:101-122 | The first open lands in slot 0 when that file is missing or below the limit. Slot 0 is then the only slot marked used, and the count is the file's length. |
| Rotation.NewDailyLogger | rotation/rotate.go:67-79 | Always returns a logger, with the default file-name format and the given time of day. There is a file iff no error is returned. When the name does not resolve, that error is returned, nothing changes on disk, there is no file, and the cutover stays at the zero time. When it resolves, the cutover is set, and opening succeeds iff the dated name `path + prefix + time text + suffix` is not refused. The logger then writes to that file, which exists, and no other file is created or changed. |
| Rotation.NewDailyLoggerFirstRotation | rotation/rotate.go:148-157 | For a time of day inside one day, a new daily logger whose name resolved does not rotate on a write at the same instant. One whose name did not resolve rotates on every write more than a day after the zero time. |
| Rotation.SetTimeFormat | rotation/rotate.go:143-145 | Only the file-name layout changes. |
| Rotation.SizeExample | rotation/rotate.go:94-233 | With a 100-byte limit, two slots and three 60-byte writes, slot 0 ends with the first two writes and slot 1 with the third. No other file changes. |

## Left out

- I/O and concurrency. The mutexes (`bLock`, the handler's shared `mu`), the `sync.Pool` of group lists and buffer freeing are not modelled. `Handle` returns its line instead of writing it through the shared writer.
- `NewDailyNoLockLogger`, `NewDailyWithLockLogger`, `NewSizeNoLockLogger`, `NewSizeWithLockLogger`: these only fix the lock flag, which is a field of the model.
- The clock is a parameter. Times are integer nanoseconds of local wall-clock time with days of exactly 24 hours, so daylight-saving shifts and time zones are not modelled. The time of a record is given as UTC calendar fields already broken down.
- `time.Time.Format`, `filepath.Abs(filepath.Dir(os.Args[0]))`, `unicode.IsSpace`/`IsPrint`, `strconv.Quote`, `strconv.AppendFloat`, `time.Duration.String` and `fmt`'s `%+v` are parameters, not definitions.
- `runtime.CallersFrames` is not modelled: a record carries its source location already looked up.
- `byteSlice`'s reflection is not modelled: the value says whether it is a byte slice.
- `File.Stat` never fails, and a write to an open file always succeeds. Errors the operating system could give there are not modelled.
- Directories exist only through `os.MkdirAll`, which fails for the empty path and for refused paths.
- Regular-file handles are never closed twice by the writer, so their close always succeeds. File descriptors are not counted, so a handle left open by any extra pass of the size loop is not visible. That happens when a pass fails, and also when a slot file is already at the limit and the next pass reassigns `logFile` without closing it.
- Encoder.RenderAttr: groups made by the `ReplaceAttr` hook nest at most `hookDepth` deep. Deeper ones write nothing, because termination over arbitrary hooks needs a bound. Once a hook is set, a group that a `LogValuer` resolves to spends the same budget. So with `hookDepth` 0 such a group writes nothing, even when the hook returns it unchanged.
- Slog.Resolve: Go's `Value.Resolve` stops after 100 `LogValue` calls and returns an error value in their place, and it recovers a panic in `LogValue` the same way. The model follows the chain to its end and has no panics.
- Handler.Enabled: the `slog.Leveler` in the options is modelled as the single level it returns. Go calls `Level()` on every call (rotation/default.go:43-44), and derived handlers share the same Leveler, so a `*slog.LevelVar` changed between calls changes the filter of a handler and of every handler derived from it. That change over time is not modelled; `Handler.DerivedEnabled` states the sharing for one fixed level.
- Handler.NewDefaultHandler: the options are a plain value. Go takes a pointer and dereferences it at rotation/default.go:36, so `NewDefaultHandler(w, nil)` panics. That input cannot be written in the model.
- Encoder.TimeText: the year of a `Civil` time is a natural number, so times before year 0, which `t.UTC().Date()` can return and rotation/default.go:313 passes on to `WritePosIntWidth`, cannot be written in the model. The `Buffer` type behind `WritePosIntWidth` is not part of this model.
- Rotation.Write: the 64-bit byte count and slot index are unbounded integers, so `int64` overflow is not modelled.
- A zero-value `Logger` never built by a constructor is not modelled. Its rotation type 0 matches neither policy.
- The `rotation/log.go` helpers and the `handler` package build on this core and are not part of this model.
