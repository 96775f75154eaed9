/**
  The default field ordering of the pterm writer (`KeyOrderFunc` and its
  `score` helper): a key is compared by a score computed from its text with
  colour codes removed. Four reserved field names get sentinel scores, so that
  `caller` comes first and `error` and `stack` come last; every other key
  scores as its own bytes. The field names are zerolog's defaults.
 */
module KeyOrder {
  import opened ByteText
  import opened Ansi

  const TimestampFieldName: Bytes := "time"
  const LevelFieldName: Bytes := "level"
  const MessageFieldName: Bytes := "message"
  const CallerFieldName: Bytes := "caller"
  const ErrorFieldName: Bytes := "error"
  const ErrorStackFieldName: Bytes := "stack"

  /** The four sentinel scores: "\x00\x00", "\x00\x01", "\xff\x00" and "\xff\x01". */
  const TimestampScore: Bytes := ['\0', '\0']
  const CallerScore: Bytes := ['\0', '\U{1}']
  const ErrorScore: Bytes := ['\U{ff}', '\0']
  const ErrorStackScore: Bytes := ['\U{ff}', '\U{1}']

  /** The field names that have a sentinel score. */
  predicate IsRanked(s: Bytes)
  {
    s == TimestampFieldName || s == CallerFieldName || s == ErrorFieldName || s == ErrorStackFieldName
  }

  /** A raw key whose bytes coincide with one of the sentinel scores. */
  predicate IsSentinel(s: Bytes)
  {
    s == TimestampScore || s == CallerScore || s == ErrorScore || s == ErrorStackScore
  }

  /** `score`: the bytes a (possibly styled) key is compared by. */
  function Score(key: Bytes): Bytes
  {
    var s := Strip(key);
    if s == TimestampFieldName then TimestampScore
    else if s == CallerFieldName then CallerScore
    else if s == ErrorFieldName then ErrorScore
    else if s == ErrorStackFieldName then ErrorStackScore
    else s
  }

  /** `KeyOrderFunc(k1, k2)`: does `k1` sort before `k2`? */
  predicate KeyLess(k1: Bytes, k2: Bytes)
  {
    Less(Score(k1), Score(k2))
  }

  /** A key outside the four reserved names scores as its stripped text. */
  lemma ScorePlain(key: Bytes)
    requires !IsRanked(Strip(key))
    ensures Score(key) == Strip(key)
  {
  }

  /**
    `caller` sorts before every other key whose stripped text is neither
    `time` nor empty and does not start with the byte 0.
   */
  lemma CallerFirst(caller: Bytes, k: Bytes)
    requires Strip(caller) == CallerFieldName
    requires Strip(k) != [] && Strip(k)[0] != '\0'
    requires Strip(k) != CallerFieldName && Strip(k) != TimestampFieldName
    ensures KeyLess(caller, k) && !KeyLess(k, caller)
  {
    var a, b := Score(caller), Score(k);
    assert a == CallerScore;
    assert b != [] && b[0] != '\0';
    assert a[0] != b[0];
    LessAsymmetric(a, b);
  }

  /**
    `error` and `stack` sort after every other key whose score does not
    start with the byte 0xff (in particular every key whose stripped text is
    empty or starts below 0xff), and `error` sorts before `stack`.
   */
  lemma ErrorAndStackLast(e: Bytes, k: Bytes)
    requires Strip(e) == ErrorFieldName || Strip(e) == ErrorStackFieldName
    requires Strip(k) != ErrorFieldName && Strip(k) != ErrorStackFieldName
    requires Strip(k) == [] || Strip(k)[0] != '\U{ff}'
    ensures KeyLess(k, e) && !KeyLess(e, k)
  {
    LessAsymmetric(Score(k), Score(e));
  }

  lemma ErrorBeforeStack(e: Bytes, s: Bytes)
    requires Strip(e) == ErrorFieldName && Strip(s) == ErrorStackFieldName
    ensures KeyLess(e, s) && !KeyLess(s, e)
  {
    assert Score(e) == ['\U{ff}'] + ['\0'];
    assert Score(s) == ['\U{ff}'] + ['\U{1}'];
    assert Score(e)[1..] == ['\0'];
    assert Score(s)[1..] == ['\U{1}'];
  }

  /** Keys outside the four reserved names are in plain byte-lexicographic order of their stripped text. */
  lemma PlainKeysLexicographic(k1: Bytes, k2: Bytes)
    requires !IsRanked(Strip(k1)) && !IsRanked(Strip(k2))
    ensures KeyLess(k1, k2) <==> Less(Strip(k1), Strip(k2))
  {
  }

  lemma KeyLessIrreflexive(k: Bytes)
    ensures !KeyLess(k, k)
  {
    LessIrreflexive(Score(k));
  }

  lemma KeyLessTransitive(k1: Bytes, k2: Bytes, k3: Bytes)
    ensures KeyLess(k1, k2) && KeyLess(k2, k3) ==> KeyLess(k1, k3)
  {
    LessTransitive(Score(k1), Score(k2), Score(k3));
  }

  lemma KeyLessAsymmetric(k1: Bytes, k2: Bytes)
    ensures KeyLess(k1, k2) ==> !KeyLess(k2, k1)
  {
    LessAsymmetric(Score(k1), Score(k2));
  }

  /**
    Two keys are unordered by KeyOrderFunc exactly when their scores are
    equal; together with irreflexivity and transitivity this makes it a
    strict weak order.
   */
  lemma KeyLessIncomparable(k1: Bytes, k2: Bytes)
    ensures !KeyLess(k1, k2) && !KeyLess(k2, k1) <==> Score(k1) == Score(k2)
  {
    LessConnected(Score(k1), Score(k2));
    LessIrreflexive(Score(k1));
  }

  /** "Does not sort before" is transitive, which a sort relies on. */
  lemma KeyNotLessTransitive(k1: Bytes, k2: Bytes, k3: Bytes)
    ensures !KeyLess(k2, k1) && !KeyLess(k3, k2) ==> !KeyLess(k3, k1)
  {
    NotLessTransitive(Score(k1), Score(k2), Score(k3));
  }

  /** Styling escape-free keys does not change how they are ordered. */
  lemma StyledOrder(s1: Style, k1: Bytes, s2: Style, k2: Bytes)
    requires EscFree(k1) && EscFree(k2)
    ensures KeyLess(Sprint(s1, k1), Sprint(s2, k2)) <==> KeyLess(k1, k2)
  {
    StripSprintAlone(s1, k1);
    StripSprintAlone(s2, k2);
    StripOfEscFree(k1);
    StripOfEscFree(k2);
    ScoreByStripped(Sprint(s1, k1), k1);
    ScoreByStripped(Sprint(s2, k2), k2);
  }

  lemma StripOfEscFree(k: Bytes)
    requires EscFree(k)
    ensures Strip(k) == k
  {
    StripEscFree(k, []);
    assert k + [] == k;
  }

  /** The score depends on the stripped text only. */
  lemma ScoreByStripped(a: Bytes, b: Bytes)
    requires Strip(a) == Strip(b)
    ensures Score(a) == Score(b)
  {
  }

  /**
    Styled escape-free keys with different raw texts get different scores,
    unless one raw text is itself a sentinel byte string.
   */
  lemma ScoreInjective(s1: Style, k1: Bytes, s2: Style, k2: Bytes)
    requires EscFree(k1) && EscFree(k2) && !IsSentinel(k1) && !IsSentinel(k2)
    requires k1 != k2
    ensures Score(Sprint(s1, k1)) != Score(Sprint(s2, k2))
  {
    StripSprintAlone(s1, k1);
    StripSprintAlone(s2, k2);
    var a, b := Score(Sprint(s1, k1)), Score(Sprint(s2, k2));
    if IsRanked(k1) && IsRanked(k2) {
      assert a[0] != b[0] || a[1] != b[1];
    } else if !IsRanked(k1) && !IsRanked(k2) {
      assert a == k1 && b == k2;
    }
  }

  /**
    The first exception: a raw key spelling a sentinel score ties with the
    field name that has that score, however the two are styled.
   */
  lemma SentinelTies(s1: Style, s2: Style)
    ensures Score(Sprint(s1, TimestampFieldName)) == Score(Sprint(s2, TimestampScore))
    ensures Score(Sprint(s1, CallerFieldName)) == Score(Sprint(s2, CallerScore))
    ensures Score(Sprint(s1, ErrorFieldName)) == Score(Sprint(s2, ErrorScore))
    ensures Score(Sprint(s1, ErrorStackFieldName)) == Score(Sprint(s2, ErrorStackScore))
  {
    SentinelPairTies(s1, TimestampFieldName, s2, TimestampScore);
    SentinelPairTies(s1, CallerFieldName, s2, CallerScore);
    SentinelPairTies(s1, ErrorFieldName, s2, ErrorScore);
    SentinelPairTies(s1, ErrorStackFieldName, s2, ErrorStackScore);
  }

  /** One field name and the sentinel score it is given, as a raw key. */
  lemma SentinelPairTies(s1: Style, name: Bytes, s2: Style, raw: Bytes)
    requires || (name == TimestampFieldName && raw == TimestampScore)
             || (name == CallerFieldName && raw == CallerScore)
             || (name == ErrorFieldName && raw == ErrorScore)
             || (name == ErrorStackFieldName && raw == ErrorStackScore)
    ensures Score(Sprint(s1, name)) == Score(Sprint(s2, raw))
  {
    ReservedEscFree();
    StripSprintAlone(s1, name);
    StripSprintAlone(s2, raw);
    ScoreOfShort(Sprint(s2, raw));
    var styled := Sprint(s1, name);
    if name == TimestampFieldName {
      assert Score(styled) == TimestampScore;
    } else if name == CallerFieldName {
      assert Score(styled) == CallerScore;
    } else if name == ErrorFieldName {
      assert Score(styled) == ErrorScore;
    } else {
      assert Strip(styled) != TimestampFieldName && Strip(styled) != CallerFieldName;
      assert Score(styled) == ErrorStackScore;
    }
  }

  /** The reserved names and their sentinel scores hold no escape byte. */
  lemma ReservedEscFree()
    ensures EscFree(TimestampFieldName) && EscFree(CallerFieldName)
    ensures EscFree(ErrorFieldName) && EscFree(ErrorStackFieldName)
    ensures EscFree(TimestampScore) && EscFree(CallerScore)
    ensures EscFree(ErrorScore) && EscFree(ErrorStackScore)
  {
  }

  /** A key that strips to fewer than four bytes is none of the reserved names. */
  lemma ScoreOfShort(k: Bytes)
    requires |Strip(k)| < 4
    ensures Score(k) == Strip(k)
  {
    assert |TimestampFieldName| == 4 && |CallerFieldName| == 6;
    assert |ErrorFieldName| == 5 && |ErrorStackFieldName| == 5;
  }

  /** Keys that strip to the same text get the same score, however each is styled. */
  lemma StrippedTies(k1: Bytes, s1: Style, k2: Bytes, s2: Style)
    requires Strip(k1) == Strip(k2)
    ensures Score(Sprint(s1, k1)) == Score(Sprint(s2, k2))
  {
    StripSprintAny(s1, k1);
    StripSprintAny(s2, k2);
    ScoreByStripped(Sprint(s1, k1), Sprint(s2, k2));
  }

  /**
    The second exception: a raw key that carries a colour code anywhere
    inside it ties with the same key without the code, however the two are
    styled.
   */
  lemma CodedKeyTiesWithBare(head: Bytes, p: Bytes, tail: Bytes, s1: Style, s2: Style)
    requires p != [] && forall i :: 0 <= i < |p| ==> IsParam(p[i])
    requires EscFree(head) && EscFree(tail)
    ensures Score(Sprint(s1, head + ([Esc] + "[" + p + "m") + tail)) == Score(Sprint(s2, head + tail))
  {
    var code := [Esc] + "[" + p + "m";
    calc {
      Strip(head + code + tail);
      { assert head + code + tail == head + (code + tail); StripEscFree(head, code + tail); }
      head + Strip(code + tail);
      { StripCodedText(p, tail, []); assert code + tail + [] == code + tail; }
      head + (tail + Strip([]));
      { assert tail + Strip([]) == tail; }
      head + tail;
      { StripEscFree(head, tail); StripOfEscFree(tail); }
      Strip(head + tail);
    }
    StrippedTies(head + code + tail, s1, head + tail, s2);
  }
}
