# pzlog pretty writer and stack marshaler, in Dafny

pzlog is a small Go add-on for zerolog. This project models its two core pieces.

- **The pterm writer** (`pterm_writer.go`). zerolog hands the writer one JSON log record and its level. The writer builds the header line `{time} {level}  {message}` and turns every other entry into a field: a styled key and a formatted value. It sorts the fields by its key order and lays them out as a tree under the header, with `├` before each field and `└` before the last. The whole block goes to the output in one write.
- **The stack marshaler** (`stack.go`). It finds the innermost error in an unwrap chain that carries a pkg/errors stack trace. Each frame of that trace becomes a map with the keys `source`, `line` and `func`. In simple mode, only frames whose path starts with the caller's directory are kept, each printed as "." followed by the rest of its path. The test is a plain text prefix: with the directory `/src/app`, the file `/src/app2/x.go` is kept and printed as `.2/x.go`.

Modules:

- `ByteText` (`byte_text.dfy`): Go strings as byte sequences. It holds Go's string `<`, `strings.HasPrefix`/`TrimPrefix`/`Repeat` and `strconv.Itoa`.
- `Ansi` (`ansi.dfy`): a concrete stand-in for pterm's `Style.Sprint` and gookit's `color.ClearCode`. Styling wraps the text in an SGR code and a reset. Stripping removes every `ESC [ [0-9;?]+ m`. This is an assumption about the libraries' output; the libraries themselves are not part of this model. The stand-in departs from them in four known ways, each of which matters only for texts that hold escape bytes, colour tags or newlines of their own: `ClearCode` returns its input unchanged when it holds no `ESC [0m`; `Style.Sprint` first renders its argument with `pterm.Sprint`, which turns colour tags such as `<red>` into codes; `Style.Sprint` colours each line of a multi-line text separately; and `Style.Sprint` puts its own code back after each reset `ESC [0m` inside the text.
- `KeyOrder` (`key_order.dfy`): the default `KeyOrderFunc` and its `score` helper.
- `EventTemplate` (`event_template.dfy`): the `Field` and `Event` records, and the text the fixed template produces.
- `Pterm` (`pterm_writer.dfy`): the defaults of `NewPtermWriter`, the key-style and value-formatter lookups, `WriteLevel` (decode, build, sort, render, write), and the `PtermWriter` class.
- `Stack` (`stack.dfy`): the `state` fmt.State, `frameField`, `MarshalStack` and the frame-to-entry mapping.
- `Wrappers` (`wrappers.dfy`): `Option` and `Result`.

Where the code panics, the model returns an error value instead, and the conditions for it are stated exactly:

- `WriteLevel` panics when a style it looks up is missing, because `Sprint` on a nil `*pterm.Style` panics. The model returns `NilStyle`.
- `MarshalStack` panics on a chain with no stack tracer, because it calls a method on a nil interface. The model returns `NoTracer`.

A template run whose indentation comes out negative makes `strings.Repeat` panic. text/template turns that panic into an error, so `WriteLevel` returns "cannot execute template". The model returns `TemplateFailure`.

Facts about the code that the model keeps:

- Level labels are zerolog's lowercase names (`info`, `warn`, ...).
- A level without a registered style fails; there is no default level style.
- The error-stack field is named `stack`, and `time` also gets a sentinel score, so it sorts before `caller`.
- Field sorting uses `sort.Slice`, which is not stable, so tied keys have no fixed order.
- The writer does no message wrapping.
- A chain with no stack tracer panics.

## Model

| member | source | states |
|---|---|---|
| KeyOrder.ScorePlain | pterm_writer.go:74-89 | A key outside time/caller/error/stack is compared by its text with colour codes removed. |
| KeyOrder.CallerFirst | pterm_writer.go:79-81 | `caller` sorts strictly before every key whose stripped text is non-empty, does not start with byte 0, and is not `time` or `caller`. |
| KeyOrder.ErrorAndStackLast | pterm_writer.go:82-87 | `error` and `stack` sort strictly after every other key whose stripped text does not start with byte 0xff. |
| KeyOrder.ErrorBeforeStack | pterm_writer.go:82-87 | `error` sorts strictly before `stack`. |
| KeyOrder.PlainKeysLexicographic | pterm_writer.go:88-90 | Ordinary keys are ordered exactly as Go's `<` orders their stripped texts (both directions). |
| KeyOrder.KeyLessIrreflexive | pterm_writer.go:73-91 | No key sorts before itself. |
| KeyOrder.KeyLessTransitive | pterm_writer.go:73-91 | The key order is transitive. |
| KeyOrder.KeyLessAsymmetric | pterm_writer.go:73-91 | The key order is asymmetric. |
| KeyOrder.KeyLessIncomparable | pterm_writer.go:73-91 | Two keys are unordered either way exactly when their scores are equal, so the order is a strict weak order, as `sort.Slice` needs. |
| KeyOrder.KeyNotLessTransitive | pterm_writer.go:73-91 | "Does not sort before" is transitive. |
| KeyOrder.StyledOrder | pterm_writer.go:75 | Styling escape-free keys never changes their relative order (both directions). |
| KeyOrder.ScoreByStripped | pterm_writer.go:75 | The score depends only on the key's text with colour codes removed. |
| KeyOrder.ScoreInjective | pterm_writer.go:74-89 | Different escape-free raw keys that do not spell a sentinel score get different scores, however they are styled. |
| KeyOrder.SentinelTies | pterm_writer.go:76-87 | A raw key spelling a sentinel score ("\x00\x00", "\x00\x01", "\xff\x00", "\xff\x01") ties with `time`, `caller`, `error` or `stack` respectively, however the two are styled: one of the two ways distinct keys can tie. |
| KeyOrder.SentinelPairTies | pterm_writer.go:76-87 | The same tie for one field name and its sentinel score. |
| KeyOrder.CodedKeyTiesWithBare | pterm_writer.go:75 | A raw key with a colour code anywhere inside it (the rest escape-free) ties with the same key without that code, however the two are styled: the other way distinct keys can tie. |
| KeyOrder.StrippedTies | pterm_writer.go:75 | Two keys that read the same once colour codes are removed get the same score, however each is styled and whatever escape bytes they hold. |
| KeyOrder.ScoreOfShort | pterm_writer.go:74-89 | A key that strips to fewer than four bytes is none of the reserved names, so its score is its stripped text. |
| KeyOrder.Score | pterm_writer.go:74-89 | Defines `score`: the key with colour codes removed, with `time`, `caller`, `error` and `stack` replaced by their two-byte sentinels. |
| KeyOrder.KeyLess | pterm_writer.go:73-91 | Defines `KeyOrderFunc`: Go's `<` on the two scores. |
| ByteText.Less | pterm_writer.go:90 | Defines Go's `<` on strings: bytewise, a proper prefix before the longer string. |
| ByteText.HasPrefix | stack.go:74 | Defines `strings.HasPrefix`: the text begins with the prefix, byte for byte. |
| ByteText.LessIrreflexive | pterm_writer.go:90 | Go's string `<` is irreflexive. |
| ByteText.LessAsymmetric | pterm_writer.go:90 | Go's string `<` is asymmetric. |
| ByteText.LessTransitive | pterm_writer.go:90 | Go's string `<` is transitive. |
| ByteText.LessConnected | pterm_writer.go:90 | Two different strings are ordered one way or the other. |
| ByteText.NotLessTransitive | pterm_writer.go:90 | "Not less" on strings is transitive. |
| ByteText.TrimPrefix | stack.go:74-77 | With the prefix present, prefix + result gives back the input; without it, the input comes back unchanged. |
| ByteText.Spaces | pterm_writer.go:101-103 | `strings.Repeat(" ", n)` is n spaces. |
| ByteText.Decimal | stack.go:81 | The decimal text is non-empty, all digits, and one digit exactly for values below 10. |
| ByteText.DecimalRoundTrip | stack.go:81 | Reading the decimal text back gives the number, and there is no leading zero. |
| ByteText.Itoa | stack.go:81 | A minus sign appears exactly for negative numbers, followed by digits that read back as the magnitude, with no leading zero. |
| ByteText.ItoaUnique | stack.go:81 | Any text with the sign exactly for negative numbers and a canonical numeral for the magnitude is Itoa's: the contract of Itoa fixes its output. |
| ByteText.CanonicalUnique | stack.go:81 | Two decimal numerals without leading zeros that denote the same number are the same text. |
| ByteText.LeadingDigitPositive | stack.go:81 | A numeral that does not start with '0' denotes at least 1. |
| Ansi.Code | pterm_writer.go:56-70 | A style's code text is empty exactly when the style has no colours, and it holds only code parameters. |
| Ansi.StripEscFree | pterm_writer.go:105 | Text without an escape byte passes through `ClearCode` unchanged. |
| Ansi.StripCode | pterm_writer.go:105 | A colour code at the front is removed as a whole. |
| Ansi.StripSprint | pterm_writer.go:105 | Stripping a styled escape-free text followed by anything gives back the text, followed by the stripped rest. |
| Ansi.Sprint | pterm_writer.go:149-153 | Defines the stand-in for `Style.Sprint`: the text wrapped in the style's code and a reset, or unchanged for a style without colours. |
| Ansi.Strip | pterm_writer.go:75 | Defines the stand-in for `color.ClearCode`: every colour code removed, scanning left to right, all other bytes kept in order. |
| Ansi.StripCodedText | pterm_writer.go:75 | A colour code in front of an escape-free text is removed and the text kept, whatever follows. |
| Ansi.StripSprintAlone | pterm_writer.go:75 | `ClearCode` is a left inverse of `Sprint` on escape-free text. |
| Ansi.CodeAcross | pterm_writer.go:105 | A colour code that starts inside x and runs past it into y continues with a code byte at y's head and ends on an `m` inside y. |
| Ansi.CodeInside | pterm_writer.go:105 | A code starting in x cannot run into a text whose head cannot continue a code. |
| Ansi.StripNonEmptyAfter | pterm_writer.go:104-106 | Whatever text comes before it, a text that cannot continue a code and keeps something after stripping still leaves the whole non-empty after stripping. |
| Ansi.StripSplit | pterm_writer.go:105 | Removing colour codes from x + y gives the stripped x followed by the stripped y, whenever y cannot continue a code that x leaves open. |
| Ansi.StripSprintAny | pterm_writer.go:105 | Styling never changes what a text strips to, whatever escape bytes the text holds. |
| Ansi.CodeLengthInside | pterm_writer.go:105 | Before a text that cannot continue a code, x + y starts with the same colour code as x, or with none. |
| EventTemplate.Execute | pterm_writer.go:94-111 | The template fails exactly when there is a field and the stripped timestamp + level is empty. On success the output starts with the header, is longer than it, and ends with a newline. |
| EventTemplate.Indent | pterm_writer.go:104-106 | Defines `totalLength 1 $.Timestamp $.Level`: the byte length of timestamp and level with colour codes removed, minus one. |
| EventTemplate.Header | pterm_writer.go:94 | Defines the first template line: timestamp, a space, level, two spaces, message. |
| EventTemplate.Connector | pterm_writer.go:107-109 | Defines `last`: `└` for the last field, `├` for the others. |
| EventTemplate.Rows | pterm_writer.go:95-97 | Defines the `range` block's output for the first k fields: each row preceded by a newline. |
| EventTemplate.RowText | pterm_writer.go:96 | Defines one field row: the indentation in spaces, the connector, a space, the key, ": " and the value. |
| EventTemplate.RowsAreJoinedLines | pterm_writer.go:95-97 | The `range` block's output, after the header, is the header and the first k rows joined by newlines. |
| EventTemplate.ExecuteIsJoinedLines | pterm_writer.go:94-98 | A successful template output is exactly the header line and one line per field, in order, joined by newlines, with a final newline. |
| EventTemplate.FieldLineShape | pterm_writer.go:96 | Field line i is the indentation, the connector (`└` for the last field, `├` otherwise), a space, key, ": " and value. |
| EventTemplate.OneTerminalConnector | pterm_writer.go:96-109 | Exactly one field, the last, gets the terminal connector. |
| Pterm.LevelName | pterm_writer.go:151 | The level label is empty exactly for NoLevel, and it never holds an escape byte. |
| Pterm.DefaultLevelStyles | pterm_writer.go:55-64 | Defines the default level styles: bold cyan, blue, green and yellow for trace to warn, bold red for error, fatal and panic, bold white for no-level. |
| Pterm.DefaultKeyStyles | pterm_writer.go:65-71 | Defines the default key styles: bold white for `message`, bold gray for `time` and `caller`, bold red for `error` and `stack`. |
| Pterm.DefaultKeyStyle | pterm_writer.go:117-119 | Defines `DefaultKeyStyle`: the level's style whatever the key, none when the level has no style. |
| Pterm.DefaultValFormatter | pterm_writer.go:121-125 | Defines `DefaultValFormatter`: `pterm.Sprint` whatever the key and level. |
| Pterm.KeyStyle | pterm_writer.go:163-167 | Defines the key style lookup: the registered style, else the default key style. |
| Pterm.ValFormatter | pterm_writer.go:169-173 | Defines the value formatter lookup: the registered formatter, else the default one. |
| Pterm.TimestampText | pterm_writer.go:148-150 | Defines the header timestamp: the `time` entry printed in the `time` key style, empty without one. |
| Pterm.LevelText | pterm_writer.go:151 | Defines the header level: the level's name printed in the level's style. |
| Pterm.MessageText | pterm_writer.go:152-154 | Defines the header message: the `message` entry printed in the `message` key style, empty without one. |
| Pterm.BuildField | pterm_writer.go:162-174 | The key is styled with its registered style, else with the level's style. The value goes through its registered formatter, else through pterm.Sprint. |
| Pterm.FieldKeyStripsBack | pterm_writer.go:162-167 | With colour codes removed, a styled escape-free field key reads as the raw key. |
| Pterm.BuildEvent | pterm_writer.go:147-178 | It fails (NilStyle) exactly when a style looked up unconditionally is missing. Otherwise the event has the styled timestamp, level and message, one field per non-reserved entry, sorted. |
| Pterm.CollectFields | pterm_writer.go:155-175 | Whatever order the map is iterated in, there is one field per non-reserved entry, built one-to-one from a permutation of the non-reserved keys. |
| Pterm.CollectSkip | pterm_writer.go:157-161 | Skipping `time`, `level` or `message` keeps the field/key correspondence. |
| Pterm.CollectStep | pterm_writer.go:162-174 | Any other entry extends the correspondence by its field and key. |
| Pterm.SortFields | pterm_writer.go:176-178 | After sorting, no field sorts before an earlier one; the fields are a permutation of the input; each field still comes from its entry. |
| Pterm.InsertLast | pterm_writer.go:176-178 | One insertion step extends the sorted prefix by one, permutes fields and keys together within the prefix, and leaves both beyond the prefix unchanged. |
| Pterm.InsertStep | pterm_writer.go:176-178 | Swapping the moving field one place back, together with its key, keeps the insertion state: sorted except at the moving field, fields and keys permuted together, the tail untouched. |
| Pterm.SortedByKey | pterm_writer.go:176-178 | Defines the order `sort.Slice` leaves: no field sorts before an earlier one under the key order. |
| Pterm.PtermWriter.constructor | pterm_writer.go:51-72 | The new writer has the terminal width, an empty output, the default level and key styles, and no value formatters. |
| Pterm.PtermWriter.Write | pterm_writer.go:134-136 | The bytes are appended to the output, and their count is returned. |
| Pterm.PtermWriter.WriteLevel | pterm_writer.go:138-185 | Undecodable input gives a decode error; a missing style gives NilStyle; a failing template gives an execute error. Each leaves the output unchanged with n = 0. Otherwise the output grows by exactly the rendered block of a sorted event for the record, and n is its length. |
| Pterm.FieldCount | pterm_writer.go:155-175 | Every entry other than time/level/message gives exactly one field; those three give none; there are no fields exactly when no other entry exists. |
| Pterm.DefaultStylesPresent | pterm_writer.go:55-71 | With the default styles, the styles are all present exactly for the levels trace through no-level. |
| Pterm.IndentWidth | pterm_writer.go:104-106 | The field rows are indented by the length of the formatted timestamp with colour codes removed, plus the length of the level label, minus one, whatever the timestamp holds. |
| Pterm.HeaderStripped | pterm_writer.go:104-106 | With colour codes removed, the styled timestamp followed by the styled level reads as the stripped formatted timestamp followed by the level name. |
| Pterm.TemplateFailsExactly | pterm_writer.go:101-106 | The template fails exactly when there is a field to print, the level is NoLevel, and the formatted timestamp is empty once colour codes are removed. |
| Pterm.TemplateFails | pterm_writer.go:101-106 | Defines when `Execute` fails: a field row is reached while timestamp and level strip to nothing, so `space` is asked for -1 spaces. |
| Pterm.StylesPresent | pterm_writer.go:148-153 | Defines when the header can be built: the level has a style, and so do `time` and `message` when the record has them. |
| Pterm.NoLevelWithoutTimestampFails | pterm_writer.go:101-106 | At no-level, a record without `time` but with a field makes the template fail. |
| Pterm.NamedLevelTemplateSucceeds | pterm_writer.go:96-106 | At any level that has a label, the template does not fail, whatever the timestamp holds. |
| Pterm.LabelCannotContinueCode | pterm_writer.go:151 | A non-empty level label cannot extend a colour code that a timestamp before it left open. |
| Pterm.KeysRanked | pterm_writer.go:176-178 | The keys of a built event are ordered by the score of their styled keys. |
| Pterm.RankInjective | pterm_writer.go:74-89 | Escape-free, non-sentinel record keys get distinct field scores. |
| Pterm.SortedUnique | pterm_writer.go:176-178 | Two arrangements of the same keys, both ordered by an injective rank, are equal. |
| Pterm.DeterministicEvent | pterm_writer.go:155-178 | Any two events built for the same record are equal (keys escape-free and not sentinels), so Go's random map order does not show in the output. |
| Stack.FuncName | stack.go:82 | The short function name is a suffix of the full name and holds no '/'. |
| Stack.FuncNameDropsQualifier | stack.go:82 | The short name is what follows the first '.' after the last '/', or that whole last segment when it holds no '.'. |
| Stack.AfterLast | stack.go:82 | The text after the last occurrence of a byte: a suffix that holds no such byte and is preceded by it, unless it is the whole text. |
| Stack.AfterFirst | stack.go:82 | The text after the first occurrence of a byte: a suffix preceded by that byte with none before it, or the whole text exactly when the byte does not occur. |
| Stack.FirstDot | stack.go:82 | The position IndexOf reports is the first '.', or there is none. |
| Stack.LastIndexOf | stack.go:82 | `strings.LastIndex` for one byte: -1 or a position holding the byte, with none after it. |
| Stack.IndexOf | stack.go:82 | `strings.Index` for one byte: -1 or a position holding the byte, with none before it; -1 only when the byte does not occur. |
| Stack.BaseName | stack.go:47 | `path.Base` as `%s` without '+' uses it: never empty, and either "/" or free of '/'. |
| Stack.FormatWrites | stack.go:47 | Defines what pkg/errors `Frame.Format` writes: with '+', 's' writes the name, a newline and tab, then the file, and without it the base name; 'd' the line; 'n' the short name. |
| Stack.LastTracer | stack.go:62-69 | Defines the innermost stack tracer of the chain: the last element with a trace. |
| Stack.Kept | stack.go:73-76 | Defines which frames are kept: all outside simple mode, those whose file starts with the caller's directory in simple mode. |
| Stack.SourcePath | stack.go:72-78 | Defines the printed path: unchanged, or in simple mode "." followed by the file with the caller's directory removed. |
| Stack.Entry | stack.go:79-83 | Defines the entry of one frame: `source`, `line` and `func` mapped to the path, the decimal line and the short function name. |
| Stack.Entries | stack.go:71-84 | Defines the marshaled entries: one entry per kept frame, in trace order. |
| Stack.FuncNameExample | stack.go:82 | `a/p.T.M` gives `T.M`: the package is dropped and the receiver kept. |
| Stack.State.constructor | stack.go:45 | A fresh state has 255 flags, all false, and holds no bytes. |
| Stack.State.Write | stack.go:24-27 | A write replaces the stored bytes and reports its full length. |
| Stack.State.Flag | stack.go:40-42 | The flag reported is the table entry. |
| Stack.Format | stack.go:47 | After formatting, the state holds the last of the frame's writes for that verb and flag. |
| Stack.FrameField | stack.go:44-49 | 's' gives the frame's file alone (the name and separator are overwritten), 'd' the line in decimal, 'n' the short function name. |
| Stack.StackMarshaler.constructor | stack.go:54-59 | The marshaler remembers the mode and the caller's directory. |
| Stack.StackMarshaler.Marshal | stack.go:60-86 | It fails exactly when no element of the chain has a trace. Otherwise the result is the entries of the innermost trace: one per kept frame, in order. |
| Stack.EntriesSnoc | stack.go:71-84 | Each frame adds its entry exactly when it is kept. |
| Stack.LastTracerIsInnermost | stack.go:62-69 | There is no trace exactly when no element has one; otherwise the trace is that of an element after which none has one. |
| Stack.EntryKeys | stack.go:79-83 | Every entry has exactly the keys `source`, `line` and `func`. |
| Stack.EntriesAreKeptFrames | stack.go:71-84 | Entry j is built from the frame at the j-th kept position, and there are as many entries as kept frames. |
| Stack.KeptIndicesExact | stack.go:73-76 | The kept positions are increasing and in range, and a position is kept exactly when its frame is. |
| Stack.FullTrace | stack.go:71-83 | Outside simple mode there is one entry per frame, in order, with the file path unchanged. |
| Stack.SimpleNoLonger | stack.go:73-76 | Simple mode never gives more entries than frames. |
| Stack.SimplePathRoundTrip | stack.go:73-78 | In simple mode every source path is "." plus a suffix that, appended to the caller's directory, gives back the frame's file. |
| Stack.KeptPath | stack.go:74-77 | For one kept frame: the same round trip. |

## Left out

- JSON decoding is not modelled. WriteLevel takes either a decoded record or `Malformed`. A JSON `null` decodes to a nil map in Go, and the model treats it as an empty record. Values keep number literals as text (`UseNumber`).
- pterm and gookit internals are not modelled. `Style.Sprint`, `pterm.Sprint`, `color.ClearCode` and `fmt.Sprint` of a value are a stand-in (module `Ansi`) or a parameter (`sprint`, for `pterm.Sprint`; `Style.Sprint` prints its argument with the same function before colouring it). Behaviour with colours disabled is not covered.
- text/template itself is not modelled. Its output for the fixed template is written out as a function, including the one runtime failure it can reach.
- `MaxWidth` and `pterm.GetTerminalWidth`: the width is a constructor parameter, and nothing else in the code reads it.
- `Out` is taken to accept every write in full. A writer that errors or writes short is not modelled, and `os.Stdout` is not modelled.
- The option closures of `NewPtermWriter` are not modelled. These include overriding `DefaultKeyStyle`, `DefaultValFormatter`, `KeyOrderFunc` or `Tmpl`. The model fixes the defaults; the style and formatter maps stay ordinary writer fields.
- Nil map entries are not modelled: the model's maps cannot hold nil. In Go, a missing `KeyStyles` entry falls back to the level style, but a present nil entry is used and panics in `Sprint`; a nil `ValFormatters` entry panics when called; a nil `LevelStyles` entry panics like a missing one.
- Pterm.SortFields: an insertion sort stands in for `sort.Slice`. The contract states what `sort.Slice` promises (sorted, a permutation). It does not fix the order of tied keys, which `sort.Slice` leaves unspecified.
- Pterm.DeterministicEvent: it holds only for keys without escape bytes that do not spell a sentinel score. Other keys can tie, and ties are then ordered as `sort.Slice` happens to order them.
- `state.Width` and `state.Precision` are not modelled: they always report "not set", and the frame formatting used here does not read them.
- pkg/errors is not part of this model. `Frame.Format`, `funcname` and `path.Base` are written out from its documented behaviour. A frame is given by its resolved name, file and line, or as unknown; `runtime.FuncForPC` is not modelled.
- `runtime.Caller` and `filepath.Dir` are not modelled: the caller's directory is a constructor parameter.
- `errors.Unwrap` is not modelled: the chain is a finite sequence, with an element's trace when it has one.
- `StackSourceFileName`, `StackSourceLineName` and `StackSourceFunctionName` are mutable package variables in Go. The model uses constants with their initial values.
- zerolog's field names (`TimestampFieldName`, `LevelFieldName`, `MessageFieldName`, `CallerFieldName`, `ErrorFieldName`, `ErrorStackFieldName`) and its level labels (`LevelTraceValue` and the others) are mutable package variables too. The model fixes them as constants with zerolog's defaults.
- The `v` verb of `Frame.Format` is not modelled, because `frameField` never uses it.
- `gin.go` (the gin log adapter) and the Go tests are not part of this model.
