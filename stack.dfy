/**
  Stack-trace marshaling for zerolog (`MarshalStack`): pick the innermost
  error of an unwrap chain that carries a pkg/errors stack trace, and turn
  each of its frames into an entry with the keys `source`, `line` and `func`.
  In simple mode only frames whose path starts with the caller's directory
  (as plain text, not as a directory) are kept, printed as "." followed by
  the rest of the path.

  pkg/errors' `Frame.Format` is modelled as far as `frameField` uses it:
  it writes the frame's parts to a `fmt.State`, and the state used here
  keeps only the last write.
 */
module Stack {
  import opened Wrappers
  import opened ByteText

  /** The keys of every entry. */
  const StackSourceFileName: Bytes := "source"
  const StackSourceLineName: Bytes := "line"
  const StackSourceFunctionName: Bytes := "func"

  /**
    A stack frame as pkg/errors resolves it: a function the runtime knows,
    with its full name, file and line, or an unknown program counter.
   */
  datatype Frame = Unknown | Known(name: Bytes, file: Bytes, line: int)

  type StackTrace = seq<Frame>

  /** The format verbs frameField is called with: 's', 'd' and 'n'. */
  datatype Verb = S | D | N

  function FrameName(f: Frame): Bytes
  {
    if f.Known? then f.name else "unknown"
  }

  function FrameFile(f: Frame): Bytes
  {
    if f.Known? then f.file else "unknown"
  }

  function FrameLine(f: Frame): int
  {
    if f.Known? then f.line else 0
  }

  /** strings.LastIndex for one byte: the last position of `c` in `s`, or -1. */
  function LastIndexOf(s: Bytes, c: Byte): (i: int)
    ensures -1 <= i < |s|
    ensures i >= 0 ==> s[i] == c
    ensures forall j :: i < j < |s| ==> s[j] != c
  {
    if s == [] then -1
    else if s[|s| - 1] == c then |s| - 1
    else LastIndexOf(s[..|s| - 1], c)
  }

  /** strings.Index for one byte: the first position of `c` in `s`, or -1. */
  function IndexOf(s: Bytes, c: Byte): (i: int)
    ensures -1 <= i < |s|
    ensures i >= 0 ==> s[i] == c
    ensures forall j :: 0 <= j < |s| && (i < 0 || j < i) ==> s[j] != c
  {
    if s == [] then -1
    else if s[0] == c then 0
    else
      var k := IndexOf(s[1..], c);
      if k < 0 then -1 else k + 1
  }

  /**
    pkg/errors `funcname`: the function name without its package path (up
    to the last '/') and without the package name (up to the first '.'
    after it). The result is a suffix of the name and holds no '/'.
   */
  function FuncName(name: Bytes): (r: Bytes)
    ensures |r| <= |name| && r == name[|name| - |r|..]
    ensures forall j :: 0 <= j < |r| ==> r[j] != '/'
  {
    var t := AfterLast(name, '/');
    var r := AfterFirst(t, '.');
    SuffixOfSuffix(name, t, r);
    SuffixAvoids(t, r, '/');
    r
  }

  /** A suffix of a text without `c` holds no `c` either. */
  lemma SuffixAvoids(t: Bytes, r: Bytes, c: Byte)
    requires |r| <= |t| && r == t[|t| - |r|..]
    requires forall j :: 0 <= j < |t| ==> t[j] != c
    ensures forall j :: 0 <= j < |r| ==> r[j] != c
  {
    forall j | 0 <= j < |r| ensures r[j] != c {
      assert r[j] == t[|t| - |r| + j];
    }
  }

  /** A suffix of a suffix of `s` is a suffix of `s`. */
  lemma SuffixOfSuffix(s: Bytes, t: Bytes, r: Bytes)
    requires |t| <= |s| && t == s[|s| - |t|..]
    requires |r| <= |t| && r == t[|t| - |r|..]
    ensures r == s[|s| - |r|..]
  {
  }

  /** The part of `s` after its last `c`: all of `s` when it has none. */
  function AfterLast(s: Bytes, c: Byte): (r: Bytes)
    ensures |r| <= |s| && r == s[|s| - |r|..]
    ensures forall j :: 0 <= j < |r| ==> r[j] != c
    ensures |r| < |s| ==> s[|s| - |r| - 1] == c
  {
    var i := LastIndexOf(s, c);
    var r := s[i + 1..];
    forall j | 0 <= j < |r| ensures r[j] != c {
      assert r[j] == s[i + 1 + j];
    }
    r
  }

  /** The part of `s` after its first `c`: all of `s` when it has none. */
  function AfterFirst(s: Bytes, c: Byte): (r: Bytes)
    ensures |r| <= |s| && r == s[|s| - |r|..]
    ensures |r| < |s| ==> s[|s| - |r| - 1] == c
    ensures forall j :: 0 <= j < |s| - |r| - 1 ==> s[j] != c
    ensures |r| == |s| ==> forall j :: 0 <= j < |s| ==> s[j] != c
  {
    s[IndexOf(s, c) + 1..]
  }

  /**
    What funcname keeps: with `t` the part of the name after its last '/',
    everything after the first '.' of `t`, or all of `t` when it has none.
   */
  lemma FuncNameDropsQualifier(name: Bytes)
    ensures var t := AfterLast(name, '/'); var k := IndexOf(t, '.');
      && ('.' !in t ==> FuncName(name) == t)
      && ('.' in t ==> 0 <= k < |t| && t[k] == '.' && '.' !in t[..k] && FuncName(name) == t[k + 1..])
  {
    var t := AfterLast(name, '/');
    var k := IndexOf(t, '.');
    FuncNameAfterDot(name);
    FirstDot(t);
    DotFound(t, k);
  }

  /** funcname keeps what follows the first '.' IndexOf finds after the last '/'. */
  lemma FuncNameAfterDot(name: Bytes)
    ensures var t := AfterLast(name, '/'); FuncName(name) == t[IndexOf(t, '.') + 1..]
  {
  }

  /** A position holding '.' shows that '.' is in `t`. */
  lemma DotFound(t: Bytes, k: int)
    requires k < |t| && (k >= 0 ==> t[k] == '.')
    ensures k >= 0 ==> '.' in t
  {
  }

  /** The first '.' of `t` as IndexOf finds it: none when it returns -1, else no '.' before it. */
  lemma FirstDot(t: Bytes)
    ensures var k := IndexOf(t, '.');
      && (k < 0 ==> '.' !in t && t[k + 1..] == t)
      && (k >= 0 ==> t[k] == '.' && '.' !in t[..k])
  {
    var k := IndexOf(t, '.');
    if k >= 0 {
      forall j | 0 <= j < k ensures t[..k][j] != '.' {
        assert t[..k][j] == t[j];
      }
    }
  }

  /** funcname on a method name: package path and package name are dropped, the type is kept. */
  lemma FuncNameExample()
    ensures FuncName("a/p.T.M") == "T.M"
  {
    var s: Bytes := "a/p.T.M";
    assert s[1] == '/' && s[3] == '.';
    var i := LastIndexOf(s, '/');
    assert i == 1;
    var t := s[2..];
    assert t == "p.T.M";
    assert IndexOf(t, '.') == 1;
    assert t[2..] == "T.M";
  }

  /** `s` without its trailing '/' bytes. */
  function TrimTrailingSlashes(s: Bytes): (r: Bytes)
    ensures |r| <= |s| && r == s[..|r|]
    ensures r == [] || r[|r| - 1] != '/'
  {
    if s != [] && s[|s| - 1] == '/' then TrimTrailingSlashes(s[..|s| - 1]) else s
  }

  /**
    path.Base: the last element of a slash-separated path, trailing slashes
    ignored; "." for the empty path and "/" for a path of slashes only.
   */
  function BaseName(p: Bytes): (r: Bytes)
    ensures r != []
    ensures r == "/" || forall j :: 0 <= j < |r| ==> r[j] != '/'
  {
    if p == [] then "."
    else
      var q := TrimTrailingSlashes(p);
      if q == [] then "/"
      else
        var i := LastIndexOf(q, '/');
        var r := q[i + 1..];
        forall j | 0 <= j < |r| ensures r[j] != '/' {
          assert r[j] == q[i + 1 + j];
        }
        r
  }

  /**
    The fmt.State frameField hands to Frame.Format: a flag table indexed by
    byte, and the bytes of the last write.
   */
  class State {
    const flag: array<bool>
    var b: Bytes

    /** `&state{}`: no flag set, nothing written. */
    constructor ()
      ensures fresh(flag) && flag.Length == 255 && b == []
      ensures forall c :: 0 <= c < 255 ==> !flag[c]
    {
      flag := new bool[255](_ => false);
      b := [];
    }

    /** `Write`: the written bytes replace what was stored; the whole write is reported, never an error. */
    method Write(p: Bytes) returns (n: int)
      modifies this`b
      ensures b == p && n == |p|
    {
      b := p;
      n := |p|;
    }

    /** `Flag`: the flag table entry; an index outside the table panics in Go, so it is required. */
    function Flag(c: int): (r: bool)
      requires 0 <= c < flag.Length
      reads flag
      ensures r == flag[c]
    {
      flag[c]
    }
  }

  /**
    What pkg/errors `Frame.Format` writes for a verb, one write after the
    other: with the '+' flag, 's' writes the function name, a newline and a
    tab, then the file; without it, the file's base name.
   */
  function FormatWrites(f: Frame, verb: Verb, plus: bool): (ws: seq<Bytes>)
    ensures ws != []
  {
    match verb
    case S => if plus then [FrameName(f), "\n\t", FrameFile(f)] else [BaseName(FrameFile(f))]
    case D => [Itoa(FrameLine(f))]
    case N => [FuncName(FrameName(f))]
  }

  /** `Frame.Format(s, verb)`: the writes of FormatWrites, made to `s` in order. */
  method Format(f: Frame, s: State, verb: Verb)
    requires s.flag.Length == 255
    modifies s`b
    ensures var ws := FormatWrites(f, verb, s.flag['+' as int]); s.b == ws[|ws| - 1]
  {
    var ws := FormatWrites(f, verb, s.Flag('+' as int));
    var i := 0;
    while i < |ws|
      invariant 0 <= i <= |ws|
      invariant i > 0 ==> s.b == ws[i - 1]
    {
      var _ := s.Write(ws[i]);
      i := i + 1;
    }
  }

  /**
    `frameField`: format the frame with the '+' flag and keep what the state
    holds. Since the state keeps only the last write, 's' gives the file
    alone (the function name and the separator are overwritten), 'd' the
    line in decimal and 'n' the short function name.
   */
  method FrameField(f: Frame, verb: Verb) returns (r: Bytes)
    ensures verb == S ==> r == FrameFile(f)
    ensures verb == D ==> r == Itoa(FrameLine(f))
    ensures verb == N ==> r == FuncName(FrameName(f))
  {
    var s := new State();
    s.flag['+' as int] := true;
    Format(f, s, verb);
    r := s.b;
  }

  /** The last element of the chain that carries a stack trace, if any. */
  function LastTracer(chain: seq<Option<StackTrace>>): Option<StackTrace>
  {
    if chain == [] then None
    else if chain[|chain| - 1].Some? then chain[|chain| - 1]
    else LastTracer(chain[..|chain| - 1])
  }

  /** The entry for one kept frame. */
  function Entry(f: Frame, simple: bool, wd: Bytes): map<Bytes, Bytes>
  {
    map[StackSourceFileName := SourcePath(f, simple, wd),
        StackSourceLineName := Itoa(FrameLine(f)),
        StackSourceFunctionName := FuncName(FrameName(f))]
  }

  /** Is the frame kept? Always outside simple mode; in simple mode when its path starts with `wd`. */
  predicate Kept(f: Frame, simple: bool, wd: Bytes)
  {
    !simple || HasPrefix(FrameFile(f), wd)
  }

  /** The path printed for a kept frame: unchanged, or in simple mode `"." + ` the path with `wd` removed. */
  function SourcePath(f: Frame, simple: bool, wd: Bytes): Bytes
  {
    if simple then "." + TrimPrefix(FrameFile(f), wd) else FrameFile(f)
  }

  /** The kept frames of a trace, in trace order. */
  function KeptFrames(st: StackTrace, simple: bool, wd: Bytes): seq<Frame>
  {
    if st == [] then []
    else
      var f := st[|st| - 1];
      KeptFrames(st[..|st| - 1], simple, wd) + (if Kept(f, simple, wd) then [f] else [])
  }

  /** One entry per frame, in order. */
  function EntriesOf(fs: seq<Frame>, simple: bool, wd: Bytes): seq<map<Bytes, Bytes>>
  {
    seq(|fs|, j requires 0 <= j < |fs| => Entry(fs[j], simple, wd))
  }

  /** The entries for a trace: one per kept frame, in trace order. */
  function Entries(st: StackTrace, simple: bool, wd: Bytes): seq<map<Bytes, Bytes>>
  {
    EntriesOf(KeptFrames(st, simple, wd), simple, wd)
  }

  /** Extending the trace by one frame adds its entry exactly when the frame is kept. */
  lemma EntriesSnoc(st: StackTrace, i: nat, simple: bool, wd: Bytes)
    requires i < |st|
    ensures Entries(st[..i + 1], simple, wd) ==
      Entries(st[..i], simple, wd) + (if Kept(st[i], simple, wd) then [Entry(st[i], simple, wd)] else [])
  {
    KeptFramesSnoc(st, i, simple, wd);
    if Kept(st[i], simple, wd) {
      EntriesOfSnoc(KeptFrames(st[..i], simple, wd), st[i], simple, wd);
    }
  }

  lemma KeptFramesSnoc(st: StackTrace, i: nat, simple: bool, wd: Bytes)
    requires i < |st|
    ensures KeptFrames(st[..i + 1], simple, wd) ==
      KeptFrames(st[..i], simple, wd) + (if Kept(st[i], simple, wd) then [st[i]] else [])
  {
    assert st[..i + 1][..i] == st[..i] && st[..i + 1][i] == st[i];
  }

  lemma EntriesOfSnoc(fs: seq<Frame>, f: Frame, simple: bool, wd: Bytes)
    ensures EntriesOf(fs + [f], simple, wd) == EntriesOf(fs, simple, wd) + [Entry(f, simple, wd)]
  {
    EntriesOfAt(fs + [f], simple, wd);
    EntriesOfAt(fs, simple, wd);
    assert (fs + [f])[|fs|] == f;
    assert forall j :: 0 <= j < |fs| ==> (fs + [f])[j] == fs[j];
    SeqSnoc(EntriesOf(fs + [f], simple, wd), EntriesOf(fs, simple, wd), Entry(f, simple, wd));
  }

  /** A sequence that agrees with `b` and then holds `x` is `b + [x]`. */
  lemma SeqSnoc<T>(a: seq<T>, b: seq<T>, x: T)
    requires |a| == |b| + 1 && a[|b|] == x
    requires forall j :: 0 <= j < |b| ==> a[j] == b[j]
    ensures a == b + [x]
  {
  }

  /** The positions of the kept frames, in increasing order. */
  function KeptIndices(st: StackTrace, simple: bool, wd: Bytes): seq<nat>
  {
    if st == [] then []
    else KeptIndices(st[..|st| - 1], simple, wd) + (if Kept(st[|st| - 1], simple, wd) then [|st| - 1] else [])
  }

  datatype StackError = NoTracer  // no element of the chain has a trace: the call on a nil interface panics

  /**
    The function MarshalStack returns. `simple` and `wd` are fixed when it
    is made: `wd` is the directory of the file that called MarshalStack,
    supplied here since the runtime lookup is not modelled.
   */
  class StackMarshaler {
    const simple: bool
    const wd: Bytes

    /** `MarshalStack(simple)`: remembers the mode and the caller's directory once. */
    constructor (simple: bool, callerDir: Bytes)
      ensures this.simple == simple && wd == callerDir
    {
      this.simple := simple;
      wd := callerDir;
    }

    /**
      Applying the returned function to an error, given as its unwrap
      chain from the outermost error inward, each element with its stack
      trace when it has one.
     */
    method Marshal(chain: seq<Option<StackTrace>>) returns (r: Result<seq<map<Bytes, Bytes>>, StackError>)
      ensures r.Failure? <==> LastTracer(chain).None?
      ensures r.Failure? ==> r.error == NoTracer
      ensures r.Success? ==> r.value == Entries(LastTracer(chain).value, simple, wd)
    {
      var rootErr: Option<StackTrace> := None;
      for i := 0 to |chain|
        invariant rootErr == LastTracer(chain[..i])
      {
        assert chain[..i + 1][..i] == chain[..i] && chain[..i + 1][i] == chain[i];
        if chain[i].Some? {
          rootErr := chain[i];
        }
      }
      assert chain[..|chain|] == chain;
      if rootErr.None? {
        return Failure(NoTracer);
      }
      var st := rootErr.value;
      var out: seq<map<Bytes, Bytes>> := [];
      for i := 0 to |st|
        invariant out == Entries(st[..i], simple, wd)
      {
        EntriesSnoc(st, i, simple, wd);
        var srcPath := FrameField(st[i], S);
        if simple {
          if !HasPrefix(srcPath, wd) {
            continue;
          }
          srcPath := "." + TrimPrefix(srcPath, wd);
        }
        var line := FrameField(st[i], D);
        var fn := FrameField(st[i], N);
        out := out + [map[StackSourceFileName := srcPath, StackSourceLineName := line, StackSourceFunctionName := fn]];
      }
      assert st[..|st|] == st;
      r := Success(out);
    }
  }

  /**
    The trace chosen is that of the last (innermost) element of the chain
    that has one: inner traces override outer ones; there is none exactly
    when no element has a trace.
   */
  lemma {:induction false} LastTracerIsInnermost(chain: seq<Option<StackTrace>>)
    ensures LastTracer(chain).None? <==> forall i :: 0 <= i < |chain| ==> chain[i].None?
    ensures LastTracer(chain).Some? ==>
      exists i :: 0 <= i < |chain| && chain[i] == LastTracer(chain) && forall j :: i < j < |chain| ==> chain[j].None?
  {
    if chain != [] && chain[|chain| - 1].None? {
      var init := chain[..|chain| - 1];
      LastTracerIsInnermost(init);
      if LastTracer(init).Some? {
        var i :| 0 <= i < |init| && init[i] == LastTracer(init) && forall j :: i < j < |init| ==> init[j].None?;
        assert chain[i] == LastTracer(chain);
      }
      assert forall i :: 0 <= i < |init| ==> init[i] == chain[i];
    }
  }

  /** Every entry has exactly the keys `source`, `line` and `func`. */
  lemma EntryKeys(st: StackTrace, simple: bool, wd: Bytes)
    ensures forall e :: e in Entries(st, simple, wd) ==>
      e.Keys == {StackSourceFileName, StackSourceLineName, StackSourceFunctionName}
  {
  }

  /**
    The entries are the kept frames, in trace order: entry j is built from
    the frame at the j-th kept position.
   */
  lemma EntriesAreKeptFrames(st: StackTrace, simple: bool, wd: Bytes)
    ensures var ks := KeptIndices(st, simple, wd);
      && |Entries(st, simple, wd)| == |ks|
      && forall j :: 0 <= j < |ks| ==>
           (ks[j] < |st| && Entries(st, simple, wd)[j] == Entry(st[ks[j]], simple, wd))
  {
    var ks, fs := KeptIndices(st, simple, wd), KeptFrames(st, simple, wd);
    KeptLength(st, simple, wd);
    EntriesOfAt(fs, simple, wd);
    forall j | 0 <= j < |ks|
      ensures ks[j] < |st| && fs[j] == st[ks[j]]
    {
      FrameAt(st, simple, wd, j);
    }
  }

  /** Entry j of a frame sequence is built from frame j. */
  lemma EntriesOfAt(fs: seq<Frame>, simple: bool, wd: Bytes)
    ensures |EntriesOf(fs, simple, wd)| == |fs|
    ensures forall j :: 0 <= j < |fs| ==> EntriesOf(fs, simple, wd)[j] == Entry(fs[j], simple, wd)
  {
  }

  lemma {:induction false} KeptLength(st: StackTrace, simple: bool, wd: Bytes)
    ensures |KeptFrames(st, simple, wd)| == |KeptIndices(st, simple, wd)|
  {
    if st != [] {
      KeptLength(st[..|st| - 1], simple, wd);
    }
  }

  /** The j-th kept frame is the frame at the j-th kept position. */
  lemma {:induction false} FrameAt(st: StackTrace, simple: bool, wd: Bytes, j: nat)
    requires j < |KeptIndices(st, simple, wd)|
    ensures KeptIndices(st, simple, wd)[j] < |st|
    ensures j < |KeptFrames(st, simple, wd)|
    ensures KeptFrames(st, simple, wd)[j] == st[KeptIndices(st, simple, wd)[j]]
  {
    KeptLength(st, simple, wd);
    var init := st[..|st| - 1];
    var fs, ks := KeptFrames(init, simple, wd), KeptIndices(init, simple, wd);
    KeptLength(init, simple, wd);
    if j < |ks| {
      FrameAt(init, simple, wd, j);
      assert init[ks[j]] == st[ks[j]];
    }
  }

  /**
    The kept positions are increasing, and a position is kept exactly when
    its frame is: every frame under `wd` in simple mode, every frame
    otherwise.
   */
  lemma {:induction false} KeptIndicesExact(st: StackTrace, simple: bool, wd: Bytes)
    ensures var ks := KeptIndices(st, simple, wd);
      && (forall a, b :: 0 <= a < b < |ks| ==> ks[a] < ks[b])
      && (forall j :: 0 <= j < |ks| ==> ks[j] < |st|)
      && (forall i :: 0 <= i < |st| ==> (i in ks <==> Kept(st[i], simple, wd)))
  {
    if st != [] {
      var init := st[..|st| - 1];
      KeptIndicesExact(init, simple, wd);
      assert forall i :: 0 <= i < |init| ==> init[i] == st[i];
    }
  }

  /** Outside simple mode there is one entry per frame, in order, with the path unchanged. */
  lemma FullTrace(st: StackTrace, wd: Bytes)
    ensures |Entries(st, false, wd)| == |st|
    ensures forall i :: 0 <= i < |st| ==> Entries(st, false, wd)[i] == Entry(st[i], false, wd)
    ensures forall i :: 0 <= i < |st| ==>
      StackSourceFileName in Entries(st, false, wd)[i] && Entries(st, false, wd)[i][StackSourceFileName] == FrameFile(st[i])
  {
    AllKept(st, wd);
    forall i | 0 <= i < |st|
      ensures Entries(st, false, wd)[i] == Entry(st[i], false, wd)
    {
    }
  }

  lemma {:induction false} AllKept(st: StackTrace, wd: Bytes)
    ensures KeptFrames(st, false, wd) == st
  {
    if st != [] {
      AllKept(st[..|st| - 1], wd);
      assert st[..|st| - 1] + [st[|st| - 1]] == st;
    }
  }

  /** Simple mode never adds entries. */
  lemma SimpleNoLonger(st: StackTrace, wd: Bytes)
    ensures |Entries(st, true, wd)| <= |st|
  {
    EntriesAreKeptFrames(st, true, wd);
    KeptCount(st, true, wd);
  }

  lemma {:induction false} KeptCount(st: StackTrace, simple: bool, wd: Bytes)
    ensures |KeptIndices(st, simple, wd)| <= |st|
  {
    if st != [] {
      KeptCount(st[..|st| - 1], simple, wd);
    }
  }

  /**
    In simple mode every printed path is "." followed by a suffix that,
    appended to `wd`, gives back the frame's file: a pure prefix test, with
    no check for a path separator.
   */
  lemma SimplePathRoundTrip(st: StackTrace, wd: Bytes, j: nat)
    requires j < |Entries(st, true, wd)|
    ensures var ks := KeptIndices(st, true, wd);
      && j < |ks| && ks[j] < |st|
      && StackSourceFileName in Entries(st, true, wd)[j]
      && var src := Entries(st, true, wd)[j][StackSourceFileName];
      && src != [] && src[0] == '.'
      && wd + src[1..] == FrameFile(st[ks[j]])
  {
    EntriesAreKeptFrames(st, true, wd);
    KeptIndicesExact(st, true, wd);
    var ks := KeptIndices(st, true, wd);
    assert ks[j] in ks;
    KeptPath(st[ks[j]], wd);
  }

  /** The path printed for one frame kept in simple mode. */
  lemma KeptPath(f: Frame, wd: Bytes)
    requires Kept(f, true, wd)
    ensures var src := Entry(f, true, wd)[StackSourceFileName];
      && src != [] && src[0] == '.'
      && wd + src[1..] == FrameFile(f)
  {
    var suffix := TrimPrefix(FrameFile(f), wd);
    assert ("." + suffix)[1..] == suffix;
  }
}
