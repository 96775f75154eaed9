/**
  The pterm writer: it turns one decoded zerolog record into a styled block of
  text and writes the whole block to its output in one write.

  Reserved entries `time`, `level` and `message` feed the header line; every
  other entry becomes a field whose key is styled (per-key style, else the
  level's style) and whose value is formatted (per-key formatter, else the
  default formatter); the fields are sorted by the key order and laid out by
  the event template.
 */
module Pterm {
  import opened Wrappers
  import opened ByteText
  import opened Ansi
  import opened KeyOrder
  import opened EventTemplate

  /** zerolog.Level, an int8. */
  type Level = l: int | -128 <= l < 128

  const TraceLevel: Level := -1
  const DebugLevel: Level := 0
  const InfoLevel: Level := 1
  const WarnLevel: Level := 2
  const ErrorLevel: Level := 3
  const FatalLevel: Level := 4
  const PanicLevel: Level := 5
  const NoLevel: Level := 6
  const Disabled: Level := 7

  /**
    `Level.String()`: the level's name, empty for NoLevel, the decimal number
    for a level zerolog does not name. Only NoLevel has an empty label, and
    no label holds an escape byte.
   */
  function LevelName(l: Level): (r: Bytes)
    ensures r == [] <==> l == NoLevel
    ensures EscFree(r)
  {
    if l == TraceLevel then "trace"
    else if l == DebugLevel then "debug"
    else if l == InfoLevel then "info"
    else if l == WarnLevel then "warn"
    else if l == ErrorLevel then "error"
    else if l == FatalLevel then "fatal"
    else if l == PanicLevel then "panic"
    else if l == NoLevel then ""
    else if l == Disabled then "disabled"
    else
      var r := Itoa(l);
      assert EscFree(r) by {
        var digits := if l < 0 then r[1..] else r;
        forall i | 0 <= i < |r| ensures r[i] != '\U{1b}' {
          if l < 0 && i > 0 {
            assert r[i] == digits[i - 1];
          }
        }
      }
      r
  }

  /** A decoded JSON value; numbers keep their literal text, as decoding with UseNumber does. */
  datatype Value =
    | Null
    | Bool(b: bool)
    | Number(literal: Bytes)
    | Str(s: Bytes)
    | Array(items: seq<Value>)
    | Object(members: map<Bytes, Value>)

  /** A value formatter: decoded value to text. */
  type Formatter = Value -> Bytes

  /** The bytes handed to WriteLevel, as the JSON decoder sees them: a record, or input it rejects. */
  datatype Input = Decoded(record: map<Bytes, Value>) | Malformed

  datatype WriteError =
    | DecodeError      // "cannot decode event"
    | NilStyle         // a style looked up in a map is missing: Sprint on a nil *pterm.Style panics
    | TemplateFailure  // "cannot execute template"

  /**
    What WriteLevel consults. `sprint` is pterm.Sprint on a decoded value, a
    library function supplied from outside: it is the default value
    formatter, and it is also what Style.Sprint prints a value as before
    colouring it (the timestamp and the message).
   */
  datatype Config = Config(
    levelStyles: map<Level, Style>,
    keyStyles: map<Bytes, Style>,
    valFormatters: map<Bytes, Formatter>,
    sprint: Formatter)

  /** The level styles NewPtermWriter installs: bold, coloured by severity. */
  function DefaultLevelStyles(): map<Level, Style>
  {
    map[
      TraceLevel := Style([Bold, FgCyan]),
      DebugLevel := Style([Bold, FgBlue]),
      InfoLevel := Style([Bold, FgGreen]),
      WarnLevel := Style([Bold, FgYellow]),
      ErrorLevel := Style([Bold, FgRed]),
      FatalLevel := Style([Bold, FgRed]),
      PanicLevel := Style([Bold, FgRed]),
      NoLevel := Style([Bold, FgWhite])]
  }

  /** The per-key styles NewPtermWriter installs. */
  function DefaultKeyStyles(): map<Bytes, Style>
  {
    map[
      MessageFieldName := Style([Bold, FgWhite]),
      TimestampFieldName := Style([Bold, FgGray]),
      CallerFieldName := Style([Bold, FgGray]),
      ErrorFieldName := Style([Bold, FgRed]),
      ErrorStackFieldName := Style([Bold, FgRed])]
  }

  /** The entries WriteLevel never turns into fields. */
  const Reserved: set<Bytes> := {TimestampFieldName, LevelFieldName, MessageFieldName}

  /** `DefaultKeyStyle(key, lvl)`: the level's style, whatever the key; None stands for the nil style. */
  function DefaultKeyStyle(cfg: Config, key: Bytes, lvl: Level): Option<Style>
  {
    if lvl in cfg.levelStyles then Some(cfg.levelStyles[lvl]) else None
  }

  /** `DefaultValFormatter(key, lvl)`: pterm.Sprint, whatever the key and level. */
  function DefaultValFormatter(cfg: Config, key: Bytes, lvl: Level): Formatter
  {
    cfg.sprint
  }

  /** The style a field key is printed in: its registered style, else the default key style. */
  function KeyStyle(cfg: Config, lvl: Level, key: Bytes): Option<Style>
  {
    if key in cfg.keyStyles then Some(cfg.keyStyles[key]) else DefaultKeyStyle(cfg, key, lvl)
  }

  /** The formatter a field value is printed with: its registered formatter, else the default one. */
  function ValFormatter(cfg: Config, lvl: Level, key: Bytes): Formatter
  {
    if key in cfg.valFormatters then cfg.valFormatters[key] else DefaultValFormatter(cfg, key, lvl)
  }

  /** The field built for one record entry. */
  function BuildField(cfg: Config, lvl: Level, key: Bytes, v: Value): (f: Field)
    requires lvl in cfg.levelStyles
    ensures key in cfg.keyStyles ==> f.key == Sprint(cfg.keyStyles[key], key)
    ensures key !in cfg.keyStyles ==> f.key == Sprint(cfg.levelStyles[lvl], key)
    ensures f.val == (if key in cfg.valFormatters then cfg.valFormatters[key](v) else cfg.sprint(v))
  {
    Field(Sprint(KeyStyle(cfg, lvl, key).value, key), ValFormatter(cfg, lvl, key)(v))
  }

  /** Styling a field key hides nothing: with the colour codes removed, an escape-free key reads as itself. */
  lemma FieldKeyStripsBack(cfg: Config, lvl: Level, key: Bytes, v: Value)
    requires lvl in cfg.levelStyles && EscFree(key)
    ensures Strip(BuildField(cfg, lvl, key, v).key) == key
  {
    StripSprintAlone(KeyStyle(cfg, lvl, key).value, key);
  }

  /** Every style WriteLevel looks up unconditionally for this record is registered. */
  predicate StylesPresent(cfg: Config, lvl: Level, record: map<Bytes, Value>)
  {
    && lvl in cfg.levelStyles
    && (TimestampFieldName in record ==> TimestampFieldName in cfg.keyStyles)
    && (MessageFieldName in record ==> MessageFieldName in cfg.keyStyles)
  }

  /** The header timestamp: the `time` entry printed in the timestamp key style, empty when the record has none. */
  function TimestampText(cfg: Config, record: map<Bytes, Value>): Bytes
    requires TimestampFieldName in record ==> TimestampFieldName in cfg.keyStyles
  {
    if TimestampFieldName in record then
      Sprint(cfg.keyStyles[TimestampFieldName], cfg.sprint(record[TimestampFieldName]))
    else []
  }

  /** The header level label: the level's name printed in the level's style. */
  function LevelText(cfg: Config, lvl: Level): Bytes
    requires lvl in cfg.levelStyles
  {
    Sprint(cfg.levelStyles[lvl], LevelName(lvl))
  }

  /** The header message: the `message` entry printed in the message key style, empty when the record has none. */
  function MessageText(cfg: Config, record: map<Bytes, Value>): Bytes
    requires MessageFieldName in record ==> MessageFieldName in cfg.keyStyles
  {
    if MessageFieldName in record then
      Sprint(cfg.keyStyles[MessageFieldName], cfg.sprint(record[MessageFieldName]))
    else []
  }

  /** `f` is the field built for the record entry `key`. */
  ghost predicate Built(cfg: Config, lvl: Level, record: map<Bytes, Value>, f: Field, key: Bytes)
    requires lvl in cfg.levelStyles
  {
    key in record && f == BuildField(cfg, lvl, key, record[key])
  }

  /**
    `fields` holds one field per non-reserved entry of the record, and
    `keys` says which: the raw keys, in field order, are a permutation of the
    record's non-reserved keys.
   */
  ghost predicate FieldsFor(cfg: Config, lvl: Level, record: map<Bytes, Value>, fields: seq<Field>, keys: seq<Bytes>)
    requires lvl in cfg.levelStyles
  {
    && |keys| == |fields|
    && multiset(keys) == multiset(record.Keys - Reserved)
    && forall i :: 0 <= i < |fields| ==> Built(cfg, lvl, record, fields[i], keys[i])
  }

  /** No field sorts before a field that precedes it (the outcome sort.Slice promises). */
  predicate SortedByKey(fields: seq<Field>)
  {
    forall i, j :: 0 <= i < j < |fields| ==> !KeyLess(fields[j].key, fields[i].key)
  }

  /** `e` is an event WriteLevel may build for the record: header texts, fields for `keys`, sorted. */
  ghost predicate EventFor(cfg: Config, lvl: Level, record: map<Bytes, Value>, e: Event, keys: seq<Bytes>)
    requires StylesPresent(cfg, lvl, record)
  {
    && e.timestamp == TimestampText(cfg, record)
    && e.level == LevelText(cfg, lvl)
    && e.message == MessageText(cfg, record)
    && FieldsFor(cfg, lvl, record, e.fields, keys)
    && SortedByKey(e.fields)
  }

  /**
    The event-building part of WriteLevel: the header texts, then one field
    per non-reserved entry in map iteration order (any order: the choice of
    the next key is left open), then the sort.
   */
  method BuildEvent(cfg: Config, lvl: Level, record: map<Bytes, Value>) returns (r: Result<Event, WriteError>, ghost keys: seq<Bytes>)
    ensures r.Failure? <==> !StylesPresent(cfg, lvl, record)
    ensures r.Failure? ==> r.error == NilStyle
    ensures r.Success? ==> StylesPresent(cfg, lvl, record) && EventFor(cfg, lvl, record, r.value, keys)
  {
    keys := [];
    var timestamp: Bytes := [];
    if TimestampFieldName in record {
      if TimestampFieldName !in cfg.keyStyles {
        return Failure(NilStyle), keys;
      }
      timestamp := Sprint(cfg.keyStyles[TimestampFieldName], cfg.sprint(record[TimestampFieldName]));
    }
    if lvl !in cfg.levelStyles {
      return Failure(NilStyle), keys;
    }
    var level := Sprint(cfg.levelStyles[lvl], LevelName(lvl));
    var message: Bytes := [];
    if MessageFieldName in record {
      if MessageFieldName !in cfg.keyStyles {
        return Failure(NilStyle), keys;
      }
      message := Sprint(cfg.keyStyles[MessageFieldName], cfg.sprint(record[MessageFieldName]));
    }

    var fields;
    fields, keys := CollectFields(cfg, lvl, record);
    var a := new Field[|fields|](i requires 0 <= i < |fields| => fields[i]);
    keys := SortFields(a, keys, cfg, lvl, record);
    r := Success(Event(timestamp, level, message, a[..]));
  }

  /**
    The loop over the record's entries: reserved entries are skipped, every
    other entry gives one field, in map iteration order (any order: the
    choice of the next key is left open).
   */
  method CollectFields(cfg: Config, lvl: Level, record: map<Bytes, Value>) returns (fields: seq<Field>, ghost keys: seq<Bytes>)
    requires lvl in cfg.levelStyles
    ensures |fields| == |record.Keys - Reserved|
    ensures FieldsFor(cfg, lvl, record, fields, keys)
  {
    fields, keys := [], [];
    var remaining := record.Keys;
    while remaining != {}
      invariant remaining <= record.Keys
      invariant FieldsFor(cfg, lvl, record - remaining, fields, keys)
      decreases remaining
    {
      var k :| k in remaining;
      if k in Reserved {
        CollectSkip(cfg, lvl, record, remaining, k, fields, keys);
        remaining := remaining - {k};
        continue;
      }
      var f := BuildField(cfg, lvl, k, record[k]);
      CollectStep(cfg, lvl, record, remaining, k, fields, keys);
      remaining := remaining - {k};
      fields := fields + [f];
      keys := keys + [k];
    }
    assert record - remaining == record;
    FieldCount(cfg, lvl, record, fields, keys);
  }

  /** A reserved entry adds no field. */
  lemma CollectSkip(cfg: Config, lvl: Level, record: map<Bytes, Value>, remaining: set<Bytes>, k: Bytes,
                    fields: seq<Field>, keys: seq<Bytes>)
    requires lvl in cfg.levelStyles && k in record && k in remaining && k in Reserved
    requires FieldsFor(cfg, lvl, record - remaining, fields, keys)
    ensures FieldsFor(cfg, lvl, record - (remaining - {k}), fields, keys)
  {
    var before, after := record - remaining, record - (remaining - {k});
    assert after.Keys - Reserved == before.Keys - Reserved;
    forall i | 0 <= i < |fields|
      ensures Built(cfg, lvl, after, fields[i], keys[i])
    {
      assert Built(cfg, lvl, before, fields[i], keys[i]);
    }
  }

  /** Any other entry adds the field built for it, and its key. */
  lemma CollectStep(cfg: Config, lvl: Level, record: map<Bytes, Value>, remaining: set<Bytes>, k: Bytes,
                    fields: seq<Field>, keys: seq<Bytes>)
    requires lvl in cfg.levelStyles && k in record && k in remaining && k !in Reserved
    requires FieldsFor(cfg, lvl, record - remaining, fields, keys)
    ensures FieldsFor(cfg, lvl, record - (remaining - {k}), fields + [BuildField(cfg, lvl, k, record[k])], keys + [k])
  {
    var before, after := record - remaining, record - (remaining - {k});
    assert after.Keys - Reserved == (before.Keys - Reserved) + {k};
    assert k !in before.Keys;
    var fs, ks := fields + [BuildField(cfg, lvl, k, record[k])], keys + [k];
    forall i | 0 <= i < |fs|
      ensures Built(cfg, lvl, after, fs[i], ks[i])
    {
      if i < |fields| {
        assert Built(cfg, lvl, before, fields[i], keys[i]);
      }
    }
  }

  /**
    sort.Slice on the fields with KeyOrderFunc as the less function, in
    place. The library's algorithm is not modelled: an insertion sort with
    the same outcome (sorted, a permutation) stands in for it. The ghost
    keys are permuted in step, to keep track of which entry each field came
    from.
   */
  method SortFields(a: array<Field>, ghost keys: seq<Bytes>, ghost cfg: Config, ghost lvl: Level, ghost record: map<Bytes, Value>)
    returns (ghost sortedKeys: seq<Bytes>)
    requires lvl in cfg.levelStyles
    requires |keys| == a.Length
    requires forall m :: 0 <= m < a.Length ==> Built(cfg, lvl, record, a[m], keys[m])
    modifies a
    ensures SortedByKey(a[..])
    ensures multiset(a[..]) == multiset(old(a[..]))
    ensures |sortedKeys| == a.Length && multiset(sortedKeys) == multiset(keys)
    ensures forall m :: 0 <= m < a.Length ==> Built(cfg, lvl, record, a[m], sortedKeys[m])
  {
    sortedKeys := keys;
    var i := 0;
    while i < a.Length
      invariant 0 <= i <= a.Length
      invariant SortedByKey(a[..i])
      invariant multiset(a[..]) == multiset(old(a[..]))
      invariant |sortedKeys| == a.Length && multiset(sortedKeys) == multiset(keys)
      invariant multiset(Zip(a[..], sortedKeys)) == multiset(Zip(old(a[..]), keys))
    {
      sortedKeys := InsertLast(a, i, sortedKeys);
      i := i + 1;
    }
    assert a[..] == a[..a.Length];
    BuiltByPairs(cfg, lvl, record, old(a[..]), keys, a[..], sortedKeys);
  }

  /** Fields paired with the keys they were built from. */
  function Zip(fields: seq<Field>, keys: seq<Bytes>): (r: seq<(Field, Bytes)>)
    requires |fields| == |keys|
    ensures |r| == |fields| && forall m :: 0 <= m < |r| ==> r[m] == (fields[m], keys[m])
  {
    seq(|fields|, m requires 0 <= m < |fields| => (fields[m], keys[m]))
  }

  /** Rearranging (field, key) pairs keeps every field built from its key. */
  lemma BuiltByPairs(cfg: Config, lvl: Level, record: map<Bytes, Value>,
                     fields0: seq<Field>, keys0: seq<Bytes>, fields: seq<Field>, keys: seq<Bytes>)
    requires lvl in cfg.levelStyles
    requires |fields0| == |keys0| && |fields| == |keys|
    requires forall m :: 0 <= m < |fields0| ==> Built(cfg, lvl, record, fields0[m], keys0[m])
    requires multiset(Zip(fields, keys)) == multiset(Zip(fields0, keys0))
    ensures forall m :: 0 <= m < |fields| ==> Built(cfg, lvl, record, fields[m], keys[m])
  {
    forall m | 0 <= m < |fields|
      ensures Built(cfg, lvl, record, fields[m], keys[m])
    {
      var z0 := Zip(fields0, keys0);
      assert Zip(fields, keys)[m] in multiset(z0);
      var n :| 0 <= n < |z0| && z0[n] == (fields[m], keys[m]);
    }
  }

  /** One insertion-sort step: with `a[..i]` sorted, move `a[i]` back to its place, so that `a[..i + 1]` is sorted. */
  method InsertLast(a: array<Field>, i: nat, ghost keys: seq<Bytes>) returns (ghost sortedKeys: seq<Bytes>)
    requires i < a.Length && |keys| == a.Length
    requires SortedByKey(a[..i])
    modifies a
    ensures SortedByKey(a[..i + 1])
    ensures multiset(a[..]) == multiset(old(a[..]))
    ensures |sortedKeys| == a.Length && multiset(sortedKeys) == multiset(keys)
    ensures multiset(Zip(a[..], sortedKeys)) == multiset(Zip(old(a[..]), keys))
    ensures a[i + 1..] == old(a[i + 1..]) && sortedKeys[i + 1..] == keys[i + 1..]
  {
    sortedKeys := keys;
    var j := i;
    SortedButStart(a[..], i);
    while j > 0 && KeyLess(a[j].key, a[j - 1].key)
      invariant 0 <= j <= i
      invariant Inserting(a[..], sortedKeys, j, i, old(a[..]), keys)
    {
      ghost var s := a[..];
      InsertStep(s, sortedKeys, j, i, old(a[..]), keys);
      a[j - 1], a[j] := a[j], a[j - 1];
      assert a[..] == Swap(s, j);
      sortedKeys := Swap(sortedKeys, j);
      j := j - 1;
    }
    SortedButDone(a[..], j, i);
  }

  /**
    The state of InsertLast after moving the new field back to position `j`:
    `s` and `keys` are `s0` and `k0` rearranged together, and only within
    the first `i + 1` positions.
   */
  ghost predicate Inserting(s: seq<Field>, keys: seq<Bytes>, j: nat, i: nat, s0: seq<Field>, k0: seq<Bytes>)
  {
    && j <= i < |s| == |keys| == |s0| == |k0|
    && SortedBut(s, j, i)
    && multiset(s) == multiset(s0)
    && multiset(keys) == multiset(k0)
    && multiset(Zip(s, keys)) == multiset(Zip(s0, k0))
    && s[i + 1..] == s0[i + 1..] && keys[i + 1..] == k0[i + 1..]
  }

  /** Swapping the moving field one place back, together with its key, keeps the insertion state. */
  lemma InsertStep(s: seq<Field>, keys: seq<Bytes>, j: nat, i: nat, s0: seq<Field>, k0: seq<Bytes>)
    requires Inserting(s, keys, j, i, s0, k0) && 0 < j
    requires KeyLess(s[j].key, s[j - 1].key)
    ensures Inserting(Swap(s, j), Swap(keys, j), j - 1, i, s0, k0)
  {
    SwapStep(s, j, i);
    SwapPairs(s, keys, j);
    SwapKeepsTail(s, j, i + 1);
    SwapKeepsTail(keys, j, i + 1);
  }

  /**
    `s[..i + 1]` is sorted except at position `j`, and nothing after `j`
    sorts before `s[j]`: the state of an insertion that has moved the new
    field back to position `j`.
   */
  ghost predicate SortedBut(s: seq<Field>, j: nat, i: nat)
    requires j <= i < |s|
  {
    && (forall p, q :: 0 <= p < q <= i && p != j && q != j ==> !KeyLess(s[q].key, s[p].key))
    && (forall q :: j < q <= i ==> !KeyLess(s[q].key, s[j].key))
  }

  lemma SortedButStart(s: seq<Field>, i: nat)
    requires i < |s| && SortedByKey(s[..i])
    ensures SortedBut(s, i, i)
  {
    forall p, q | 0 <= p < q <= i && p != i && q != i
      ensures !KeyLess(s[q].key, s[p].key)
    {
      assert s[..i][p] == s[p] && s[..i][q] == s[q];
    }
  }

  /** `s` with the elements at `j - 1` and `j` exchanged. */
  function Swap<T>(s: seq<T>, j: nat): (r: seq<T>)
    requires 0 < j < |s|
    ensures |r| == |s| && multiset(r) == multiset(s)
  {
    s[j - 1 := s[j]][j := s[j - 1]]
  }

  /** A swap at `j` leaves everything from `from > j` on as it was. */
  lemma SwapKeepsTail<T>(s: seq<T>, j: nat, from: nat)
    requires 0 < j < from <= |s|
    ensures Swap(s, j)[from..] == s[from..]
  {
  }

  /** Swapping fields and keys at the same place keeps the same (field, key) pairs. */
  lemma SwapPairs(fields: seq<Field>, keys: seq<Bytes>, j: nat)
    requires 0 < j < |fields| == |keys|
    ensures multiset(Zip(Swap(fields, j), Swap(keys, j))) == multiset(Zip(fields, keys))
  {
    var z := Zip(fields, keys);
    assert Zip(Swap(fields, j), Swap(keys, j)) == Swap(z, j);
  }

  /** Swapping the moving field with the one before it, which sorts after it, keeps the insertion state. */
  lemma SwapStep(s: seq<Field>, j: nat, i: nat)
    requires 0 < j <= i < |s| && SortedBut(s, j, i)
    requires KeyLess(s[j].key, s[j - 1].key)
    ensures SortedBut(Swap(s, j), j - 1, i)
  {
    var t := Swap(s, j);
    KeyLessAsymmetric(s[j].key, s[j - 1].key);
    forall q | j - 1 < q <= i
      ensures !KeyLess(t[q].key, t[j - 1].key)
    {
      if q > j {
        KeyNotLessTransitive(s[j].key, s[j - 1].key, s[q].key);
      }
    }
  }

  /** When the moving field stops, the first `i + 1` fields are sorted. */
  lemma SortedButDone(s: seq<Field>, j: nat, i: nat)
    requires j <= i < |s| && SortedBut(s, j, i)
    requires j == 0 || !KeyLess(s[j].key, s[j - 1].key)
    ensures SortedByKey(s[..i + 1])
  {
    forall p, q | 0 <= p < q <= i
      ensures !KeyLess(s[q].key, s[p].key)
    {
      if q == j && p < j - 1 {
        KeyNotLessTransitive(s[p].key, s[j - 1].key, s[j].key);
      }
    }
  }

  /** The template fails for this record: there is a field to print, and no visible timestamp or level text to indent by. */
  predicate TemplateFails(cfg: Config, lvl: Level, record: map<Bytes, Value>)
    requires StylesPresent(cfg, lvl, record)
  {
    record.Keys - Reserved != {} && Strip(TimestampText(cfg, record) + LevelText(cfg, lvl)) == []
  }

  /**
    The writer. `out` is everything written to its output so far; the output
    is taken to accept every write in full. `sprint` is the formatting
    library function the writer calls (see Config).
   */
  class PtermWriter {
    var maxWidth: int
    var out: Bytes
    var levelStyles: map<Level, Style>
    var keyStyles: map<Bytes, Style>
    var valFormatters: map<Bytes, Formatter>
    const sprint: Formatter

    /** What WriteLevel consults, read from the writer's fields. */
    function Settings(): Config
      reads this
    {
      Config(levelStyles, keyStyles, valFormatters, sprint)
    }

    /**
      NewPtermWriter without options: the terminal width, an empty output,
      the default level and key styles and no value formatters.
     */
    constructor (terminalWidth: int, sprint: Formatter)
      ensures maxWidth == terminalWidth && out == []
      ensures levelStyles == DefaultLevelStyles() && keyStyles == DefaultKeyStyles() && valFormatters == map[]
      ensures this.sprint == sprint
    {
      maxWidth := terminalWidth;
      out := [];
      levelStyles := DefaultLevelStyles();
      keyStyles := DefaultKeyStyles();
      valFormatters := map[];
      this.sprint := sprint;
    }

    /** `Write`: the bytes go to the output unchanged. */
    method Write(p: Bytes) returns (n: int)
      modifies this`out
      ensures out == old(out) + p && n == |p|
    {
      out := out + p;
      n := |p|;
    }

    /**
      `WriteLevel`: decode the record, build and sort the event, execute the
      template and write the block in one write. Every failure leaves the
      output untouched and reports 0 bytes; the ghost results name the event
      that was printed and the entries its fields came from.
     */
    method WriteLevel(lvl: Level, p: Input) returns (n: int, err: Option<WriteError>, ghost event: Event, ghost keys: seq<Bytes>)
      modifies this`out
      ensures p.Malformed? ==> n == 0 && err == Some(DecodeError) && out == old(out)
      ensures p.Decoded? && !StylesPresent(Settings(), lvl, p.record) ==>
        n == 0 && err == Some(NilStyle) && out == old(out)
      ensures p.Decoded? && StylesPresent(Settings(), lvl, p.record) && TemplateFails(Settings(), lvl, p.record) ==>
        n == 0 && err == Some(TemplateFailure) && out == old(out)
      ensures p.Decoded? && StylesPresent(Settings(), lvl, p.record) && !TemplateFails(Settings(), lvl, p.record) ==>
        && err == None
        && EventFor(Settings(), lvl, p.record, event, keys)
        && Execute(event).Success?
        && out == old(out) + Execute(event).value
        && n == |Execute(event).value|
    {
      event, keys := Event([], [], [], []), [];
      if p.Malformed? {
        return 0, Some(DecodeError), event, keys;
      }
      var r;
      r, keys := BuildEvent(Settings(), lvl, p.record);
      if r.Failure? {
        return 0, Some(r.error), event, keys;
      }
      var e := r.value;
      event := e;
      FieldCount(Settings(), lvl, p.record, e.fields, keys);
      var block := Execute(e);
      if block.Failure? {
        return 0, Some(TemplateFailure), event, keys;
      }
      n := Write(block.value);
      err := None;
    }
  }

  /**
    Every entry outside `time`, `level` and `message` gives exactly one
    field and those three give none.
   */
  lemma FieldCount(cfg: Config, lvl: Level, record: map<Bytes, Value>, fields: seq<Field>, keys: seq<Bytes>)
    requires lvl in cfg.levelStyles && FieldsFor(cfg, lvl, record, fields, keys)
    ensures |fields| == |record.Keys - Reserved|
    ensures fields == [] <==> record.Keys - Reserved == {}
    ensures forall i :: 0 <= i < |keys| ==> keys[i] in record && keys[i] !in Reserved
    ensures forall k :: k in record && k !in Reserved ==> multiset(keys)[k] == 1
  {
    var rest := record.Keys - Reserved;
    assert |multiset(keys)| == |keys|;
    SetMultisetSize(rest);
    forall i | 0 <= i < |keys| ensures keys[i] in record && keys[i] !in Reserved {
      assert keys[i] in multiset(keys);
    }
  }

  lemma {:induction false} SetMultisetSize<T>(s: set<T>)
    ensures |multiset(s)| == |s|
  {
    if s != {} {
      var x :| x in s;
      SetMultisetSize(s - {x});
      assert multiset(s) == multiset(s - {x}) + multiset{x};
    }
  }

  /** The raw timestamp text: the `time` entry as pterm.Sprint prints it, empty when absent. */
  function RawTimestamp(cfg: Config, record: map<Bytes, Value>): Bytes
  {
    if TimestampFieldName in record then cfg.sprint(record[TimestampFieldName]) else []
  }

  /**
    With the default styles, the only styles WriteLevel can miss are level
    styles: it fails with NilStyle exactly for the levels outside trace..no
    level (Disabled and the unnamed levels).
   */
  lemma DefaultStylesPresent(cfg: Config, lvl: Level, record: map<Bytes, Value>)
    requires cfg.levelStyles == DefaultLevelStyles() && cfg.keyStyles == DefaultKeyStyles()
    ensures StylesPresent(cfg, lvl, record) <==> TraceLevel <= lvl <= NoLevel
  {
    assert TimestampFieldName in cfg.keyStyles && MessageFieldName in cfg.keyStyles;
  }

  /**
    Stripped of colour codes, the header's timestamp and level text are the
    timestamp as formatted (its own escape bytes stripped too) followed by
    the level's name.
   */
  lemma HeaderStripped(cfg: Config, lvl: Level, record: map<Bytes, Value>)
    requires StylesPresent(cfg, lvl, record)
    ensures Strip(TimestampText(cfg, record) + LevelText(cfg, lvl)) == Strip(RawTimestamp(cfg, record)) + LevelName(lvl)
  {
    var ts, lv := TimestampText(cfg, record), LevelText(cfg, lvl);
    var style, name := cfg.levelStyles[lvl], LevelName(lvl);
    StripSprintAlone(style, name);
    if TimestampFieldName in record {
      StripSprintAny(cfg.keyStyles[TimestampFieldName], RawTimestamp(cfg, record));
    }
    if lv == [] {
      assert ts + lv == ts && name == [];
      assert Strip(RawTimestamp(cfg, record)) + name == Strip(RawTimestamp(cfg, record));
    } else {
      assert CannotContinueCode(lv) by {
        if style.colors != [] {
          assert lv[0] == Esc;
        } else {
          LabelCannotContinueCode(lvl);
        }
      }
      StripSplit(ts, lv);
    }
  }

  /**
    The indentation of the field rows is the visible width of timestamp and
    level label minus one; escape bytes inside the formatted timestamp count
    only as far as they survive stripping.
   */
  lemma IndentWidth(cfg: Config, lvl: Level, record: map<Bytes, Value>, e: Event, keys: seq<Bytes>)
    requires StylesPresent(cfg, lvl, record) && EventFor(cfg, lvl, record, e, keys)
    ensures Indent(e) == |Strip(RawTimestamp(cfg, record))| + |LevelName(lvl)| - 1
  {
    HeaderStripped(cfg, lvl, record);
  }

  /**
    The template fails exactly when there is a field to print, the level is
    NoLevel, and the formatted timestamp is empty once stripped.
   */
  lemma TemplateFailsExactly(cfg: Config, lvl: Level, record: map<Bytes, Value>)
    requires StylesPresent(cfg, lvl, record)
    ensures TemplateFails(cfg, lvl, record) <==>
      record.Keys - Reserved != {} && lvl == NoLevel && Strip(RawTimestamp(cfg, record)) == []
  {
    HeaderStripped(cfg, lvl, record);
  }

  /**
    The template failure is reachable: at level NoLevel (empty label) a
    record without `time` but with any other non-reserved entry fails.
   */
  lemma NoLevelWithoutTimestampFails(cfg: Config, record: map<Bytes, Value>, k: Bytes)
    requires NoLevel in cfg.levelStyles && TimestampFieldName !in record
    requires MessageFieldName in record ==> MessageFieldName in cfg.keyStyles
    requires k in record && k !in Reserved
    ensures StylesPresent(cfg, NoLevel, record) && TemplateFails(cfg, NoLevel, record)
  {
    StripSprintAlone(cfg.levelStyles[NoLevel], []);
    assert TimestampText(cfg, record) + LevelText(cfg, NoLevel) == LevelText(cfg, NoLevel);
    assert k in record.Keys - Reserved;
  }

  /**
    At any level with a label the template succeeds, whatever the timestamp
    text holds: the level text cannot be swallowed by a colour code that
    starts in the timestamp, so something visible is left to indent by.
   */
  lemma NamedLevelTemplateSucceeds(cfg: Config, lvl: Level, record: map<Bytes, Value>)
    requires StylesPresent(cfg, lvl, record) && lvl != NoLevel
    ensures !TemplateFails(cfg, lvl, record)
  {
    var style, name := cfg.levelStyles[lvl], LevelName(lvl);
    StripSprintAlone(style, name);
    LabelCannotContinueCode(lvl);
    assert CannotContinueCode(LevelText(cfg, lvl)) by {
      if style.colors != [] {
        assert LevelText(cfg, lvl)[0] == Esc;
      }
    }
    StripNonEmptyAfter(TimestampText(cfg, record), LevelText(cfg, lvl));
  }

  /** A level label holds no 'm', the byte that ends a colour code. */
  lemma LabelCannotContinueCode(lvl: Level)
    requires lvl != NoLevel
    ensures CannotContinueCode(LevelName(lvl))
  {
    var r := LevelName(lvl);
    if TraceLevel <= lvl <= Disabled {
      assert forall i :: 0 <= i < |r| ==> r[i] != 'm';
    } else {
      assert r == Itoa(lvl);
      var digits := if lvl < 0 then r[1..] else r;
      forall i | 0 <= i < |r| ensures r[i] != 'm' {
        if lvl < 0 && i > 0 {
          assert r[i] == digits[i - 1];
        }
      }
    }
  }

  /** Every key has a rank, and no key ranks below one before it. */
  ghost predicate Ranked(ks: seq<Bytes>, rank: map<Bytes, Bytes>)
  {
    forall i, j :: 0 <= i < j < |ks| ==> InOrder(rank, ks[i], ks[j])
  }

  /** `a` and `b` have ranks, and `b` does not rank below `a`. */
  ghost predicate InOrder(rank: map<Bytes, Bytes>, a: Bytes, b: Bytes)
  {
    a in rank && b in rank && !Less(rank[b], rank[a])
  }

  /** No two keys share a rank. */
  ghost predicate Injective(rank: map<Bytes, Bytes>)
  {
    forall a, b :: a in rank && b in rank && a != b ==> rank[a] != rank[b]
  }

  lemma RankedTail(ks: seq<Bytes>, rank: map<Bytes, Bytes>)
    requires ks != [] && Ranked(ks, rank)
    ensures Ranked(ks[1..], rank)
  {
    var t := ks[1..];
    forall i, j | 0 <= i < j < |t|
      ensures InOrder(rank, t[i], t[j])
    {
      assert t[i] == ks[i + 1] && t[j] == ks[j + 1];
    }
  }

  /**
    Two arrangements of the same keys that are both ordered by an injective
    rank are the same arrangement.
   */
  lemma {:induction false} SortedUnique(ks1: seq<Bytes>, ks2: seq<Bytes>, rank: map<Bytes, Bytes>)
    requires multiset(ks1) == multiset(ks2)
    requires Ranked(ks1, rank) && Ranked(ks2, rank) && Injective(rank)
    ensures ks1 == ks2
  {
    if ks1 == [] {
      assert |multiset(ks2)| == 0;
    } else {
      SameFirst(ks1, ks2, rank);
      var x := ks1[0];
      assert ks1 == [x] + ks1[1..] && ks2 == [x] + ks2[1..];
      assert multiset(ks1[1..]) == multiset(ks1) - multiset{x};
      assert multiset(ks2[1..]) == multiset(ks2) - multiset{x};
      RankedTail(ks1, rank);
      RankedTail(ks2, rank);
      SortedUnique(ks1[1..], ks2[1..], rank);
    }
  }

  /** Both arrangements start with the key of least rank. */
  lemma SameFirst(ks1: seq<Bytes>, ks2: seq<Bytes>, rank: map<Bytes, Bytes>)
    requires ks1 != [] && multiset(ks1) == multiset(ks2)
    requires Ranked(ks1, rank) && Ranked(ks2, rank) && Injective(rank)
    ensures ks2 != [] && ks1[0] == ks2[0]
  {
    assert ks1[0] in multiset(ks2);
    var m :| 0 <= m < |ks2| && ks2[m] == ks1[0];
    assert ks2[0] in multiset(ks1);
    var j :| 0 <= j < |ks1| && ks1[j] == ks2[0];
    if ks1[0] != ks2[0] {
      assert 0 < j && 0 < m;
      assert !Less(rank[ks2[0]], rank[ks1[0]]) && !Less(rank[ks1[0]], rank[ks2[0]]);
      LessConnected(rank[ks1[0]], rank[ks2[0]]);
      assert false;
    }
  }

  /** The score of the field each non-reserved entry gives. */
  function FieldRank(cfg: Config, lvl: Level, record: map<Bytes, Value>): map<Bytes, Bytes>
    requires lvl in cfg.levelStyles
  {
    map k | k in record.Keys - Reserved :: Score(BuildField(cfg, lvl, k, record[k]).key)
  }

  /** The fields of an event are in field-rank order of the entries they came from. */
  lemma KeysRanked(cfg: Config, lvl: Level, record: map<Bytes, Value>, e: Event, keys: seq<Bytes>)
    requires StylesPresent(cfg, lvl, record) && EventFor(cfg, lvl, record, e, keys)
    ensures Ranked(keys, FieldRank(cfg, lvl, record))
  {
    FieldCount(cfg, lvl, record, e.fields, keys);
    var rank := FieldRank(cfg, lvl, record);
    forall i, j | 0 <= i < j < |keys|
      ensures InOrder(rank, keys[i], keys[j])
    {
      assert Built(cfg, lvl, record, e.fields[i], keys[i]) && Built(cfg, lvl, record, e.fields[j], keys[j]);
      assert !KeyLess(e.fields[j].key, e.fields[i].key);
    }
  }

  /** Escape-free keys that spell no sentinel score rank differently. */
  lemma RankInjective(cfg: Config, lvl: Level, record: map<Bytes, Value>)
    requires lvl in cfg.levelStyles
    requires forall k :: k in record && k !in Reserved ==> EscFree(k) && !IsSentinel(k)
    ensures Injective(FieldRank(cfg, lvl, record))
  {
    var rank := FieldRank(cfg, lvl, record);
    forall a, b | a in rank && b in rank && a != b
      ensures rank[a] != rank[b]
    {
      ScoreInjective(KeyStyle(cfg, lvl, a).value, a, KeyStyle(cfg, lvl, b).value, b);
    }
  }

  /**
    The block does not depend on the order Go's map iteration visits the
    record: any two events WriteLevel may build for the same record are
    equal, provided no key holds an escape byte or spells a sentinel score.
   */
  lemma DeterministicEvent(cfg: Config, lvl: Level, record: map<Bytes, Value>,
                           e1: Event, keys1: seq<Bytes>, e2: Event, keys2: seq<Bytes>)
    requires StylesPresent(cfg, lvl, record)
    requires EventFor(cfg, lvl, record, e1, keys1) && EventFor(cfg, lvl, record, e2, keys2)
    requires forall k :: k in record && k !in Reserved ==> EscFree(k) && !IsSentinel(k)
    ensures e1 == e2
  {
    KeysRanked(cfg, lvl, record, e1, keys1);
    KeysRanked(cfg, lvl, record, e2, keys2);
    RankInjective(cfg, lvl, record);
    SortedUnique(keys1, keys2, FieldRank(cfg, lvl, record));
    forall i | 0 <= i < |e1.fields| ensures e1.fields[i] == e2.fields[i] {
      assert Built(cfg, lvl, record, e1.fields[i], keys1[i]) && Built(cfg, lvl, record, e2.fields[i], keys2[i]);
    }
  }
}
