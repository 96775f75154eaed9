/**
  The event record the pterm writer fills in, and the text its fixed template
  produces from it. The template prints the header line
  `{timestamp} {level}  {message}`, then one row per field, each on a new line
  indented by the visible width of timestamp and level minus one, with `└`
  before the last field and `├` before every other, and ends with a newline.
  The template engine itself is not modelled: this is the text it produces.
 */
module EventTemplate {
  import opened ByteText
  import opened Ansi
  import opened Wrappers

  /** One rendered field: styled key and formatted value. */
  datatype Field = Field(key: Bytes, val: Bytes)

  /** The record passed to the template. */
  datatype Event = Event(timestamp: Bytes, level: Bytes, message: Bytes, fields: seq<Field>)

  /** The one way executing the template fails: `space` asked for a negative count, and strings.Repeat panics. */
  datatype TemplateError = NegativeRepeatCount

  /** "└" and "├", each three bytes in UTF-8. */
  const LastBranch: Bytes := ['\U{e2}', '\U{94}', '\U{94}']
  const Branch: Bytes := ['\U{e2}', '\U{94}', '\U{9c}']

  /** `totalLength 1 $.Timestamp $.Level`: byte length of timestamp and level with colour codes removed, minus one. */
  function Indent(e: Event): int
  {
    |Strip(e.timestamp + e.level)| - 1
  }

  /** The first template line. */
  function Header(e: Event): Bytes
  {
    e.timestamp + " " + e.level + "  " + e.message
  }

  /** `if (last $i $.Fields)`: the terminal connector for the last field, the branch connector for the others. */
  function Connector(i: nat, n: nat): Bytes
  {
    if i == n - 1 then LastBranch else Branch
  }

  /** The text of field `i`'s row, without the newline that precedes it. */
  function RowText(pad: nat, fields: seq<Field>, i: nat): Bytes
    requires i < |fields|
  {
    Spaces(pad) + Connector(i, |fields|) + " " + fields[i].key + ": " + fields[i].val
  }

  /** What the `range` block emits for the first `k` fields: each row preceded by a newline. */
  function Rows(pad: nat, fields: seq<Field>, k: nat): Bytes
    requires k <= |fields|
  {
    if k == 0 then [] else Rows(pad, fields, k - 1) + "\n" + RowText(pad, fields, k - 1)
  }

  /**
    Executing the template on an event. The indentation is only computed
    inside the `range` block, so a negative count fails only when there is a
    field to print.
   */
  function Execute(e: Event): (r: Result<Bytes, TemplateError>)
    ensures r.Failure? <==> e.fields != [] && Strip(e.timestamp + e.level) == []
    ensures r.Success? ==> HasPrefix(r.value, Header(e)) && |r.value| > |Header(e)| && r.value[|r.value| - 1] == '\n'
  {
    if e.fields != [] && Indent(e) < 0 then Failure(NegativeRepeatCount)
    else
      var pad := if Indent(e) < 0 then 0 else Indent(e);
      var out := Header(e) + Rows(pad, e.fields, |e.fields|) + "\n";
      assert out[..|Header(e)|] == Header(e);
      Success(out)
  }

  /** The block as a list of lines: the header, then one row per field in order. */
  function Lines(e: Event): (ls: seq<Bytes>)
    requires e.fields == [] || Indent(e) >= 0
  {
    var pad := if Indent(e) < 0 then 0 else Indent(e);
    [Header(e)] + seq(|e.fields|, i requires 0 <= i < |e.fields| => RowText(pad, e.fields, i))
  }

  /** Lines joined by newlines. */
  function JoinLines(ls: seq<Bytes>): Bytes
    requires ls != []
  {
    if |ls| == 1 then ls[0] else JoinLines(ls[..|ls| - 1]) + "\n" + ls[|ls| - 1]
  }

  lemma {:induction false} RowsAreJoinedLines(header: Bytes, pad: nat, fields: seq<Field>, ls: seq<Bytes>, k: nat)
    requires |ls| == |fields| + 1 && ls[0] == header
    requires forall j :: 0 <= j < |fields| ==> ls[j + 1] == RowText(pad, fields, j)
    requires k <= |fields|
    ensures JoinLines(ls[..k + 1]) == header + Rows(pad, fields, k)
  {
    if k > 0 {
      RowsAreJoinedLines(header, pad, fields, ls, k - 1);
      var prev, row := Rows(pad, fields, k - 1), RowText(pad, fields, k - 1);
      assert ls[k] == row;
      JoinLinesSnoc(ls, k);
      assert Rows(pad, fields, k) == prev + "\n" + row;
      AppendLine(JoinLines(ls[..k]), header, prev, row);
    }
  }

  /** Joining one more line appends a newline and that line. */
  lemma JoinLinesSnoc(ls: seq<Bytes>, k: nat)
    requires 0 < k < |ls|
    ensures JoinLines(ls[..k + 1]) == JoinLines(ls[..k]) + "\n" + ls[k]
  {
    assert ls[..k + 1][..k] == ls[..k];
  }

  lemma AppendLine(joined: Bytes, header: Bytes, prev: Bytes, row: Bytes)
    requires joined == header + prev
    ensures joined + "\n" + row == header + (prev + "\n" + row)
  {
  }

  /**
    The template's output is exactly the header line followed by one line per
    field, joined by newlines, with a final newline.
   */
  lemma ExecuteIsJoinedLines(e: Event)
    requires e.fields == [] || Indent(e) >= 0
    ensures Execute(e) == Success(JoinLines(Lines(e)) + "\n")
  {
    var pad := if Indent(e) < 0 then 0 else Indent(e);
    var ls := Lines(e);
    forall j | 0 <= j < |e.fields| ensures ls[j + 1] == RowText(pad, e.fields, j) {
    }
    RowsAreJoinedLines(Header(e), pad, e.fields, ls, |e.fields|);
    assert ls[..|e.fields| + 1] == ls;
  }

  /**
    Every field line is the indentation, a connector, a space, the key, ": "
    and the value; the connector is `└` on the last field line and `├` on every
    other one.
   */
  lemma FieldLineShape(e: Event, i: nat)
    requires Indent(e) >= 0 && i < |e.fields|
    ensures var line := Lines(e)[i + 1];
      && line == Spaces(Indent(e)) + (if i == |e.fields| - 1 then LastBranch else Branch) + " " + e.fields[i].key + ": " + e.fields[i].val
  {
    assert Lines(e)[i + 1] == RowText(Indent(e), e.fields, i);
  }

  /** Exactly one field is printed with the terminal connector, and it is the last one. */
  lemma OneTerminalConnector(n: nat)
    requires n > 0
    ensures (set i | 0 <= i < n && Connector(i, n) == LastBranch) == {n - 1}
  {
    assert Branch != LastBranch by { assert Branch[2] != LastBranch[2]; }
  }
}
