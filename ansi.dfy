/**
  A concrete stand-in for the terminal-colour libraries the writer calls:
  pterm's `Style.Sprint` (colour a text) and gookit's `color.ClearCode` (remove
  colour codes). Neither library is part of this model; the stand-in is an
  ASSUMPTION about their observable behaviour on colour-enabled output:
  - styling a text with a non-empty list of colours wraps it in one SGR
    sequence `ESC [ c1;c2;... m` and the reset `ESC [ 0 m`; an empty style
    leaves the text as it is;
  - stripping removes every match of the pattern `ESC \[ [0-9;?]+ m`,
    scanning left to right as a regular-expression replace does.
  Known departures from the libraries, which matter only for texts that
  hold escape bytes, colour tags or newlines of their own:
  - `color.ClearCode` returns its input unchanged when it holds no `ESC [0m`;
    Strip removes codes regardless;
  - `Style.Sprint` first renders its argument with `pterm.Sprint`, which
    turns gookit colour tags such as `<red>...</>` into codes; Sprint takes
    the text as it is;
  - `Style.Sprint` colours each line of a multi-line text separately;
    Sprint wraps the whole text once;
  - `Style.Sprint` replaces each reset `ESC [0m` inside the text by the
    reset followed by its own code, so that the colour resumes after it;
    Sprint leaves such resets as they are.
 */
module Ansi {
  import opened ByteText

  const Esc: Byte := '\U{1b}'

  /** The SGR reset sequence that ends every styled text. */
  const Reset: Bytes := [Esc] + "[0m"

  /** One pterm colour or attribute number (pterm stores them as uint8). */
  type Color = c: int | 0 <= c < 256

  /** A pterm style: the list of colour and attribute numbers it applies. */
  datatype Style = Style(colors: seq<Color>)

  /** Numbers pterm uses for the attributes and colours the writer's defaults name. */
  const Bold: Color := 1
  const FgRed: Color := 31
  const FgGreen: Color := 32
  const FgYellow: Color := 33
  const FgBlue: Color := 34
  const FgCyan: Color := 36
  const FgWhite: Color := 37
  const FgGray: Color := 90

  /** A byte that may appear between `ESC [` and `m` in a colour code. */
  predicate IsParam(b: Byte)
  {
    IsDigit(b) || b == ';' || b == '?'
  }

  /** The parameter text of a style: its numbers in decimal, joined by ';'. */
  function Code(colors: seq<Color>): (r: Bytes)
    ensures colors != [] <==> r != []
    ensures forall i :: 0 <= i < |r| ==> IsParam(r[i])
  {
    if colors == [] then []
    else if |colors| == 1 then Decimal(colors[0])
    else Decimal(colors[0]) + ";" + Code(colors[1..])
  }

  /** `style.Sprint(text)`: the text wrapped in the style's colour code and a reset. */
  function Sprint(style: Style, text: Bytes): Bytes
  {
    if style.colors == [] then text
    else [Esc] + "[" + Code(style.colors) + "m" + text + Reset
  }

  /** Number of leading bytes of `s` that are colour-code parameters. */
  function ParamRun(s: Bytes): (n: nat)
    ensures n <= |s|
  {
    if s != [] && IsParam(s[0]) then 1 + ParamRun(s[1..]) else 0
  }

  /** Length of the colour code `ESC [ params m` that `s` starts with, or 0 when it starts with none. */
  function CodeLength(s: Bytes): (n: nat)
    ensures n == 0 || 3 < n <= |s|
  {
    if 2 <= |s| && s[0] == Esc && s[1] == '[' then
      var run := ParamRun(s[2..]);
      if 0 < run && 2 + run < |s| && s[2 + run] == 'm' then 3 + run else 0
    else 0
  }

  /** `color.ClearCode`: every colour code removed, all other bytes kept in order. */
  function Strip(s: Bytes): Bytes
    decreases |s|
  {
    if s == [] then []
    else if CodeLength(s) > 0 then Strip(s[CodeLength(s)..])
    else [s[0]] + Strip(s[1..])
  }

  /** A byte other than ESC cannot start a colour code, so Strip keeps it. */
  lemma StripKeepsHead(s: Bytes)
    requires s != [] && s[0] != Esc
    ensures Strip(s) == [s[0]] + Strip(s[1..])
  {
    assert CodeLength(s) == 0;
  }

  /** Text without an ESC byte passes through Strip unchanged, whatever follows it. */
  lemma {:induction false} StripEscFree(t: Bytes, rest: Bytes)
    requires EscFree(t)
    ensures Strip(t + rest) == t + Strip(rest)
  {
    if t != [] {
      var s := t + rest;
      assert s[0] == t[0];
      assert s[1..] == t[1..] + rest;
      StripKeepsHead(s);
      assert EscFree(t[1..]) by {
        forall i | 0 <= i < |t[1..]| ensures t[1..][i] != Esc {
          assert t[1..][i] == t[i + 1];
        }
      }
      calc {
        Strip(s);
        [t[0]] + Strip(t[1..] + rest);
        { StripEscFree(t[1..], rest); }
        [t[0]] + (t[1..] + Strip(rest));
        { assert t == [t[0]] + t[1..]; }
        t + Strip(rest);
      }
    } else {
      assert t + rest == rest;
    }
  }

  lemma {:induction false} ParamRunOfCode(p: Bytes, rest: Bytes)
    requires forall i :: 0 <= i < |p| ==> IsParam(p[i])
    ensures ParamRun(p + "m" + rest) == |p|
  {
    if p != [] {
      assert (p + "m" + rest)[1..] == p[1..] + "m" + rest;
      ParamRunOfCode(p[1..], rest);
    }
  }

  /** A complete colour code at the front is dropped as a whole. */
  lemma StripCode(p: Bytes, rest: Bytes)
    requires p != [] && forall i :: 0 <= i < |p| ==> IsParam(p[i])
    ensures Strip([Esc] + "[" + p + "m" + rest) == Strip(rest)
  {
    var s := [Esc] + "[" + p + "m" + rest;
    assert s[2..] == p + "m" + rest;
    ParamRunOfCode(p, rest);
    assert s[2 + |p|] == 'm';
    assert CodeLength(s) == 3 + |p|;
    assert s[3 + |p|..] == rest;
  }

  /**
    Stripping undoes styling: the style's codes are removed and the text
    comes back, provided the text held no escape byte of its own; whatever
    follows the styled text is stripped on its own.
   */
  lemma StripSprint(style: Style, text: Bytes, rest: Bytes)
    requires EscFree(text)
    ensures Strip(Sprint(style, text) + rest) == text + Strip(rest)
  {
    if style.colors == [] {
      StripEscFree(text, rest);
    } else {
      StripStyled(Code(style.colors), text, rest);
      assert Sprint(style, text) + rest == [Esc] + "[" + Code(style.colors) + "m" + (text + (Reset + rest));
    }
  }

  /** A coloured text: the opening code, the text and the reset, as Strip sees them. */
  lemma StripStyled(p: Bytes, text: Bytes, rest: Bytes)
    requires p != [] && forall i :: 0 <= i < |p| ==> IsParam(p[i])
    requires EscFree(text)
    ensures Strip([Esc] + "[" + p + "m" + (text + (Reset + rest))) == text + Strip(rest)
  {
    calc {
      Strip([Esc] + "[" + p + "m" + (text + (Reset + rest)));
      { StripCode(p, text + (Reset + rest)); }
      Strip(text + (Reset + rest));
      { StripEscFree(text, Reset + rest); }
      text + Strip(Reset + rest);
      { StripCode("0", rest);
        assert Reset + rest == [Esc] + "[" + "0" + "m" + rest; }
      text + Strip(rest);
    }
  }

  /** A colour code in front of an escape-free text is removed, and the text kept, whatever follows. */
  lemma StripCodedText(p: Bytes, text: Bytes, rest: Bytes)
    requires p != [] && forall i :: 0 <= i < |p| ==> IsParam(p[i])
    requires EscFree(text)
    ensures Strip([Esc] + "[" + p + "m" + text + rest) == text + Strip(rest)
  {
    assert [Esc] + "[" + p + "m" + text + rest == [Esc] + "[" + p + "m" + (text + rest);
    StripCode(p, text + rest);
    StripEscFree(text, rest);
  }

  /** The one-text form of StripSprint: Strip is a left inverse of styling on escape-free text. */
  lemma StripSprintAlone(style: Style, text: Bytes)
    requires EscFree(text)
    ensures Strip(Sprint(style, text)) == text
  {
    StripSprint(style, text, []);
    assert Sprint(style, text) + [] == Sprint(style, text);
    assert text + [] == text;
  }

  /** Every byte of the leading parameter run is a parameter. */
  lemma {:induction false} ParamRunAll(t: Bytes)
    ensures forall i :: 0 <= i < ParamRun(t) ==> IsParam(t[i])
  {
    if t != [] && IsParam(t[0]) {
      ParamRunAll(t[1..]);
      forall i | 0 < i < ParamRun(t) ensures IsParam(t[i]) {
        assert t[i] == t[1..][i - 1];
      }
    }
  }

  /**
    `y` cannot be the tail end of a colour code that starts before it: it
    starts with a byte that is none of '[', a parameter or 'm', or it holds
    no 'm' at all (a code ends with one).
   */
  predicate CannotContinueCode(y: Bytes)
  {
    y != [] &&
    ((y[0] != '[' && !IsParam(y[0]) && y[0] != 'm') || forall i :: 0 <= i < |y| ==> y[i] != 'm')
  }

  /** A colour code at the front of `x + y` ends inside `x` when `y` cannot continue it. */
  lemma CodeInside(x: Bytes, y: Bytes)
    requires x != [] && CannotContinueCode(y)
    ensures CodeLength(x + y) <= |x|
  {
    if CodeLength(x + y) > |x| {
      CodeAcross(x, y);
    }
  }

  /** A colour code that starts in `x` and reaches into `y`: `y` starts inside the code and holds its final 'm'. */
  lemma CodeAcross(x: Bytes, y: Bytes)
    requires 0 < |x| < CodeLength(x + y)
    ensures y[0] == '[' || IsParam(y[0]) || y[0] == 'm'
    ensures CodeLength(x + y) - 1 - |x| < |y| && y[CodeLength(x + y) - 1 - |x|] == 'm'
  {
    var s := x + y;
    var run := ParamRun(s[2..]);
    assert CodeLength(s) == 3 + run && s[2 + run] == 'm';
    ParamRunAll(s[2..]);
    if |x| == 1 {
      assert s[1] == y[0];
    } else if |x| < 2 + run {
      assert s[2..][|x| - 2] == y[0];
    } else {
      assert s[2 + run] == y[0];
    }
  }

  /**
    Whatever precedes it, a text that survives stripping on its own and
    cannot continue a colour code keeps `x + y` from stripping to nothing.
   */
  lemma {:induction false} StripNonEmptyAfter(x: Bytes, y: Bytes)
    requires CannotContinueCode(y) && Strip(y) != []
    ensures Strip(x + y) != []
    decreases |x|
  {
    if x == [] {
      assert x + y == y;
    } else {
      var s := x + y;
      var n := CodeLength(s);
      if n > 0 {
        CodeInside(x, y);
        assert s[n..] == x[n..] + y;
        StripNonEmptyAfter(x[n..], y);
      }
    }
  }

  /** A parameter run that ends inside `a` is not changed by what follows `a`. */
  lemma {:induction false} ParamRunWithin(a: Bytes, b: Bytes)
    requires ParamRun(a + b) < |a|
    ensures ParamRun(a) == ParamRun(a + b)
  {
    assert (a + b)[0] == a[0];
    if IsParam(a[0]) {
      assert (a + b)[1..] == a[1..] + b;
      ParamRunWithin(a[1..], b);
    }
  }

  /** A colour code at the front of `x` stays the code at the front of `x + y`. */
  lemma CodeLengthPrefix(x: Bytes, y: Bytes)
    ensures CodeLength(x) > 0 ==> CodeLength(x + y) == CodeLength(x)
  {
    if CodeLength(x) > 0 {
      var s, run := x + y, ParamRun(x[2..]);
      assert s[2..] == x[2..] + y;
      ParamRunAll(x[2..]);
      assert x[2..][run] == 'm' && !IsParam(x[2..][run]);
      ParamRunStops(x[2..], y);
      assert s[0] == x[0] && s[1] == x[1] && s[2 + run] == x[2 + run];
    }
  }

  /** A parameter run that stops at a byte of `a` is the run of `a + b` too. */
  lemma {:induction false} ParamRunStops(a: Bytes, b: Bytes)
    requires ParamRun(a) < |a|
    ensures ParamRun(a + b) == ParamRun(a)
  {
    assert (a + b)[0] == a[0];
    if IsParam(a[0]) {
      assert (a + b)[1..] == a[1..] + b;
      ParamRunStops(a[1..], b);
    }
  }

  /** A colour code at the front of `x + y` that ends inside `x` is a code of `x` alone. */
  lemma CodeLengthWithin(x: Bytes, y: Bytes)
    ensures 0 < CodeLength(x + y) <= |x| ==> CodeLength(x) == CodeLength(x + y)
  {
    var s := x + y;
    if 0 < CodeLength(s) <= |x| {
      var run := ParamRun(s[2..]);
      assert s[2..] == x[2..] + y;
      ParamRunWithin(x[2..], y);
      assert x[0] == s[0] && x[1] == s[1] && x[2 + run] == s[2 + run];
    }
  }

  /** Before a text that cannot continue a code, `x` starts with the same code, or none, alone or followed by it. */
  lemma CodeLengthInside(x: Bytes, y: Bytes)
    requires x != [] && CannotContinueCode(y)
    ensures CodeLength(x + y) == CodeLength(x)
  {
    CodeInside(x, y);
    CodeLengthPrefix(x, y);
    CodeLengthWithin(x, y);
  }

  /** Stripping splits over `x + y` when `y` cannot continue a code that `x` leaves open. */
  lemma {:induction false} StripSplit(x: Bytes, y: Bytes)
    requires CannotContinueCode(y)
    ensures Strip(x + y) == Strip(x) + Strip(y)
    decreases |x|
  {
    if x == [] {
      assert x + y == y && Strip(x) == [];
      assert Strip(x) + Strip(y) == Strip(y);
    } else if CodeLength(x) > 0 {
      StripSplit(x[CodeLength(x)..], y);
      StripSplitCode(x, y);
    } else {
      StripSplit(x[1..], y);
      StripSplitByte(x, y);
    }
  }

  /** The step of StripSplit over a colour code at the front of `x`. */
  lemma StripSplitCode(x: Bytes, y: Bytes)
    requires CannotContinueCode(y) && CodeLength(x) > 0
    requires Strip(x[CodeLength(x)..] + y) == Strip(x[CodeLength(x)..]) + Strip(y)
    ensures Strip(x + y) == Strip(x) + Strip(y)
  {
    var n := CodeLength(x);
    CodeLengthInside(x, y);
    DropAppend(x, y, n);
    StripAfterCode(x + y);
    StripAfterCode(x);
  }

  /** Dropping a prefix of `x` from `x + y` leaves the rest of `x`, then `y`. */
  lemma DropAppend(x: Bytes, y: Bytes, n: nat)
    requires n <= |x|
    ensures (x + y)[n..] == x[n..] + y
    ensures n < |x| ==> (x + y)[n] == x[n]
  {
  }

  /** The step of StripSplit over a plain byte at the front of `x`. */
  lemma StripSplitByte(x: Bytes, y: Bytes)
    requires CannotContinueCode(y) && x != [] && CodeLength(x) == 0
    requires Strip(x[1..] + y) == Strip(x[1..]) + Strip(y)
    ensures Strip(x + y) == Strip(x) + Strip(y)
  {
    CodeLengthInside(x, y);
    DropAppend(x, y, 1);
    StripAfterByte(x + y);
    StripAfterByte(x);
    ConsAppend([x[0]], Strip(x[1..]), Strip(y));
  }

  /** Concatenation regroups: `h + (a + b)` is `(h + a) + b`. */
  lemma ConsAppend(h: Bytes, a: Bytes, b: Bytes)
    ensures h + (a + b) == (h + a) + b
  {
  }

  /** One step of Strip over a colour code at the front. */
  lemma StripAfterCode(s: Bytes)
    requires CodeLength(s) > 0
    ensures Strip(s) == Strip(s[CodeLength(s)..])
  {
  }

  /** One step of Strip over a byte that starts no colour code. */
  lemma StripAfterByte(s: Bytes)
    requires s != [] && CodeLength(s) == 0
    ensures Strip(s) == [s[0]] + Strip(s[1..])
  {
  }

  /** Styling never changes what a text strips to, whatever escape bytes the text holds. */
  lemma StripSprintAny(style: Style, text: Bytes)
    ensures Strip(Sprint(style, text)) == Strip(text)
  {
    if style.colors != [] {
      var c := Code(style.colors);
      calc {
        Strip(Sprint(style, text));
        { assert Sprint(style, text) == [Esc] + "[" + c + "m" + (text + Reset);
          StripCode(c, text + Reset); }
        Strip(text + Reset);
        { assert Reset[0] == Esc;
          StripSplit(text, Reset); }
        Strip(text) + Strip(Reset);
        { StripCode("0", []);
          assert Reset == [Esc] + "[" + "0" + "m" + [];
          assert Strip(text) + [] == Strip(text); }
        Strip(text);
      }
    }
  }
}
