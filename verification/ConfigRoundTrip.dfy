/** Settings written out as a file in either dialect, and what loading that file gives back. */
module ConfigRoundTrip {
  import opened Bytes
  import opened CText
  import opened Config
  import opened Outcome

  // ---------------------------------------------------------------- writing

  /** Section and key names: lower-case letters, digits and underscores. */
  predicate WordByte(c: byte) { 97 <= c <= 122 || IsDigit(c) || c == 95 }

  predicate Word(s: bytes) { s != [] && forall c <- s :: WordByte(c) }

  function EscapeByte(c: byte): bytes
  {
    if c == QUOTE || c == BACKSLASH then [BACKSLASH, c]
    else if c == NEWLINE then [BACKSLASH, 110]
    else if c == TAB then [BACKSLASH, 116]
    else [c]
  }

  function Escape(s: bytes): bytes { if s == [] then [] else EscapeByte(s[0]) + Escape(s[1..]) }

  function Quoted(s: bytes): bytes { [QUOTE] + Escape(s) + [QUOTE] }

  function QuotedItems(items: seq<bytes>): bytes
  {
    if items == [] then []
    else [QUOTE] + items[0] + [QUOTE] + (if |items| == 1 then [] else [COMMA] + QuotedItems(items[1..]))
  }

  datatype Literal = AText(s: bytes) | ANumber(n: int) | AFlag(b: bool) | AList(items: seq<bytes>)

  datatype Assignment = Assignment(section: bytes, key: bytes, lit: Literal)

  function LiteralText(lit: Literal): bytes
  {
    match lit
    case AText(s) => Quoted(s)
    case ANumber(n) => Signed(n)
    case AFlag(b) => if b then TrueText() else FalseText()
    case AList(items) => [OPEN] + QuotedItems(items) + [CLOSE]
  }

  /** A setting line up to its value. */
  function SettingHead(d: Dialect, key: bytes): bytes
  {
    if d == Toml then key + [SPACE, EQUALS, SPACE] else [SPACE, SPACE] + key + [COLON, SPACE]
  }

  function SettingText(d: Dialect, key: bytes, w: bytes): bytes { SettingHead(d, key) + w }

  function HeaderText(d: Dialect, section: bytes): bytes
  {
    if d == Toml then [OPEN] + section + [CLOSE] else section + [COLON]
  }

  function FileLines(d: Dialect, settings: seq<Assignment>): seq<bytes>
  {
    if settings == [] then []
    else
      [HeaderText(d, settings[0].section), SettingText(d, settings[0].key, LiteralText(settings[0].lit))]
      + FileLines(d, settings[1..])
  }

  // ---------------------------------------------------------------- texts

  lemma UnescapeEscaped(c: byte, body: bytes)
    requires body != []
    ensures UnescapeFrom(EscapeByte(c) + body) == [c] + UnescapeFrom(body)
  {
    hide UnescapeFrom;
    var e := EscapeByte(c);
    UnescapeStep(e + body);
    if |e| == 2 {
      assert (e + body)[2..] == body;
    } else {
      assert (e + body)[1..] == body;
    }
  }

  lemma {:induction false} UnescapeEscape(s: bytes)
    ensures UnescapeFrom(Escape(s) + [QUOTE]) == s
  {
    if s == [] {
      assert Escape(s) + [QUOTE] == [QUOTE];
    } else {
      hide UnescapeFrom;
      var rest := Escape(s[1..]) + [QUOTE];
      assert Escape(s) + [QUOTE] == EscapeByte(s[0]) + rest;
      UnescapeEscaped(s[0], rest);
      UnescapeEscape(s[1..]);
      assert [s[0]] + s[1..] == s;
    }
  }

  function Hashes(s: bytes): nat { if s == [] then 0 else (if s[0] == HASH then 1 else 0) + Hashes(s[1..]) }

  function Quotes(s: bytes): nat { if s == [] then 0 else (if s[0] == QUOTE then 1 else 0) + Quotes(s[1..]) }

  /** Every number sign has an even number of quotes before it. */
  ghost predicate Safe(s: bytes) { forall k :: 0 <= k < |s| && s[k] == HASH ==> Quotes(s[..k]) % 2 == 0 }

  /** The same, octet by octet: `inText` tells whether a number sign would be kept here. */
  predicate SafeFrom(s: bytes, inText: bool)
  {
    s == [] || ((s[0] == HASH ==> inText) && SafeFrom(s[1..], if s[0] == QUOTE then !inText else inText))
  }

  ghost predicate AllKept(s: bytes, inText: bool)
  {
    forall k :: 0 <= k < |s| && s[k] == HASH ==> ((Quotes(s[..k]) % 2 == 0) == inText)
  }

  lemma QuotesShift(s: bytes, k: nat)
    requires s != [] && k < |s[1..]|
    ensures s[k + 1] == s[1..][k] && Quotes(s[..k + 1]) == (if s[0] == QUOTE then 1 else 0) + Quotes(s[1..][..k])
  {
    assert s[..k + 1][1..] == s[1..][..k];
  }

  lemma AllKeptStep(s: bytes, inText: bool)
    requires s != []
    ensures AllKept(s, inText) <==>
            (s[0] == HASH ==> inText) && AllKept(s[1..], if s[0] == QUOTE then !inText else inText)
  {
    var rest, next := s[1..], if s[0] == QUOTE then !inText else inText;
    assert s[..0] == [];
    if AllKept(s, inText) {
      forall k | 0 <= k < |rest| && rest[k] == HASH
        ensures (Quotes(rest[..k]) % 2 == 0) == next
      {
        QuotesShift(s, k);
      }
    }
    if (s[0] == HASH ==> inText) && AllKept(rest, next) {
      forall k | 0 <= k < |s| && s[k] == HASH
        ensures (Quotes(s[..k]) % 2 == 0) == inText
      {
        if k > 0 {
          QuotesShift(s, k - 1);
        }
      }
    }
  }

  lemma {:induction false} SafeFromIs(s: bytes, inText: bool)
    ensures SafeFrom(s, inText) <==> AllKept(s, inText)
  {
    if s != [] {
      hide AllKept;
      AllKeptStep(s, inText);
      SafeFromIs(s[1..], if s[0] == QUOTE then !inText else inText);
    }
  }

  /** Whether the comment scan is within quotes after a text. */
  function After(s: bytes, inQuotes: bool): bool
  {
    if s == [] then inQuotes else After(s[1..], if s[0] == QUOTE then !inQuotes else inQuotes)
  }

  lemma {:induction false} HashesConcat(a: bytes, b: bytes)
    ensures Hashes(a + b) == Hashes(a) + Hashes(b)
  {
    if a == [] {
      assert a + b == b;
    } else {
      assert (a + b)[1..] == a[1..] + b;
      HashesConcat(a[1..], b);
    }
  }

  lemma StripOne(c: byte, t: bytes, inQuotes: bool)
    ensures StripComment([c] + t, inQuotes) ==
            if c == HASH && !inQuotes then [] else [c] + StripComment(t, if c == QUOTE then !inQuotes else inQuotes)
  {
    assert ([c] + t)[1..] == t;
  }

  lemma StripEscapedByte(c: byte, t: bytes, inQuotes: bool)
    ensures StripComment(EscapeByte(c) + t, inQuotes) ==
            if c == HASH && !inQuotes then []
            else EscapeByte(c) + StripComment(t, if c == QUOTE then !inQuotes else inQuotes)
  {
    hide StripComment;
    var e := EscapeByte(c);
    if |e| == 2 {
      assert e + t == [e[0]] + ([e[1]] + t);
      StripOne(e[0], [e[1]] + t, inQuotes);
      StripOne(e[1], t, inQuotes);
      assert [e[0]] + ([e[1]] + StripComment(t, if c == QUOTE then !inQuotes else inQuotes)) ==
             e + StripComment(t, if c == QUOTE then !inQuotes else inQuotes);
    } else {
      StripOne(c, t, inQuotes);
    }
  }

  lemma HashesOne(c: byte)
    ensures Hashes([c]) == if c == HASH then 1 else 0
  {
    assert [c][1..] == [];
  }

  lemma HashesOfEscape(c: byte)
    ensures Hashes(EscapeByte(c)) == if c == HASH then 1 else 0
  {
    hide Hashes;
    var e := EscapeByte(c);
    HashesOne(e[0]);
    if |e| == 2 {
      assert e == [e[0]] + [e[1]];
      HashesConcat([e[0]], [e[1]]);
      HashesOne(e[1]);
    } else {
      assert e == [e[0]];
    }
  }

  /** Whether the comment scan keeps an escaped text whole, or loses a number sign of it. */
  ghost predicate Scanned(s: bytes, t: bytes, inQuotes: bool)
  {
    var x := StripComment(Escape(s) + t, inQuotes);
    if SafeFrom(s, inQuotes) then x == Escape(s) + StripComment(t, After(s, inQuotes)) else Hashes(x) < Hashes(s)
  }

  lemma ScannedStep(s: bytes, t: bytes, inQuotes: bool)
    requires s != [] && !(s[0] == HASH && !inQuotes)
    requires Scanned(s[1..], t, if s[0] == QUOTE then !inQuotes else inQuotes)
    ensures Scanned(s, t, inQuotes)
  {
    var next := if s[0] == QUOTE then !inQuotes else inQuotes;
    FirstUnfolds(s, inQuotes);
    hide StripComment, EscapeByte, Escape, SafeFrom, After, Hashes;
    var e, rest := EscapeByte(s[0]), Escape(s[1..]);
    Associative(e, rest, t);
    StripEscapedByte(s[0], rest + t, inQuotes);
    HashesConcat(e, StripComment(rest + t, next));
    Associative(e, rest, StripComment(t, After(s[1..], next)));
  }

  lemma Associative(a: bytes, b: bytes, c: bytes)
    ensures a + b + c == a + (b + c)
  {
  }

  lemma FirstUnfolds(s: bytes, inQuotes: bool)
    requires s != [] && !(s[0] == HASH && !inQuotes)
    ensures var next := if s[0] == QUOTE then !inQuotes else inQuotes;
            && Escape(s) == EscapeByte(s[0]) + Escape(s[1..])
            && SafeFrom(s, inQuotes) == SafeFrom(s[1..], next) && After(s, inQuotes) == After(s[1..], next)
            && Hashes(s) == Hashes(EscapeByte(s[0])) + Hashes(s[1..])
  {
    HashesOfEscape(s[0]);
  }

  lemma {:induction false} StripEscaped(s: bytes, t: bytes, inQuotes: bool)
    ensures Scanned(s, t, inQuotes)
  {
    if s == [] {
      assert Escape(s) + t == t && Escape(s) + StripComment(t, After(s, inQuotes)) == StripComment(t, After(s, inQuotes));
    } else if s[0] == HASH && !inQuotes {
      assert Escape(s) + t == EscapeByte(s[0]) + (Escape(s[1..]) + t);
      StripEscapedByte(s[0], Escape(s[1..]) + t, inQuotes);
    } else {
      StripEscaped(s[1..], t, if s[0] == QUOTE then !inQuotes else inQuotes);
      ScannedStep(s, t, inQuotes);
    }
  }

  lemma {:induction false} StripPlain(pre: bytes, t: bytes, inQuotes: bool)
    requires forall k :: 0 <= k < |pre| ==> pre[k] != QUOTE && pre[k] != HASH
    ensures StripComment(pre + t, inQuotes) == pre + StripComment(t, inQuotes)
  {
    if pre == [] {
      assert pre + t == t;
    } else {
      assert (pre + t)[1..] == pre[1..] + t;
      StripPlain(pre[1..], t, inQuotes);
      assert pre == [pre[0]] + pre[1..];
    }
  }

  /** A quoted text on a line is whole after the comment scan just when it is safe. */
  lemma {:induction false} QuotedSurvives(s: bytes)
    ensures var x := StripComment(Quoted(s), false);
            && x != [] && x[0] == QUOTE
            && (Safe(s) ==> x == Quoted(s)) && (!Safe(s) ==> Hashes(x) < Hashes(s))
  {
    var tail := Escape(s) + [QUOTE];
    SafeFromIs(s, true);
    StripEscaped(s, [QUOTE], true);
    StripOne(QUOTE, [], After(s, true));
    assert [QUOTE] + [] == [QUOTE];
    StripOne(QUOTE, tail, false);
    assert Quoted(s) == [QUOTE] + tail;
    HashesConcat([QUOTE], StripComment(tail, true));
    assert Hashes([QUOTE]) == 0;
  }

  // ---------------------------------------------------------------- a value is never more than its line

  lemma {:induction false} HashesOfPart(s: bytes, i: nat, j: nat)
    requires i <= j <= |s|
    ensures Hashes(s[i..j]) <= Hashes(s)
  {
    assert s == s[..i] + s[i..j] + s[j..];
    HashesConcat(s[..i] + s[i..j], s[j..]);
    HashesConcat(s[..i], s[i..j]);
  }

  lemma {:induction false} UnescapeAddsNone(body: bytes)
    ensures Hashes(UnescapeFrom(body)) <= Hashes(body)
    decreases |body|
  {
    if |body| > 1 {
      if body[0] == BACKSLASH && |body| > 2 {
        UnescapeAddsNone(body[2..]);
        assert body[1..][1..] == body[2..];
      } else {
        UnescapeAddsNone(body[1..]);
      }
    }
  }

  lemma {:induction false} ParseTextAddsNone(d: Dialect, v: bytes)
    requires v != [] && v[0] == QUOTE
    ensures Hashes(ParseText(d, v)) <= Hashes(v)
  {
    UnescapeAddsNone(v[1..]);
  }

  // ---------------------------------------------------------------- lines

  lemma {:induction false} TrimRightConcat(pre: bytes, x: bytes)
    requires x != [] && !IsSpace(x[0])
    ensures TrimRight(x) != [] && TrimRight(x)[0] == x[0] && TrimRight(pre + x) == pre + TrimRight(x)
    decreases |x|
  {
    var n := |x| - 1;
    assert (pre + x)[|pre + x| - 1] == x[n];
    if IsSpace(x[n]) {
      assert (pre + x)[..|pre + x| - 1] == pre + x[..n];
      TrimRightConcat(pre, x[..n]);
    }
  }

  lemma {:induction false} TrimRightKeeps(x: bytes)
    ensures TrimRight(TrimRight(x)) == TrimRight(x)
  {
    if x != [] && IsSpace(x[|x| - 1]) {
      TrimRightKeeps(x[..|x| - 1]);
    }
  }

  lemma WordEnds(key: bytes)
    requires Word(key)
    ensures WordByte(key[0]) && WordByte(key[|key| - 1])
    ensures forall k :: 0 <= k < |key| ==> WordByte(key[k])
    ensures Trim(key) == key && Trim(key + [SPACE]) == key
  {
    assert forall k :: 0 <= k < |key| ==> key[k] in key;
    assert SkipSpaces(key + [SPACE]) == key + [SPACE];
    assert (key + [SPACE])[..|key|] == key;
  }

  function Mark(d: Dialect): byte { if d == Toml then EQUALS else COLON }

  /** What stands between a key and its value. */
  function Between(d: Dialect): bytes { if d == Toml then [SPACE, EQUALS, SPACE] else [COLON, SPACE] }

  lemma TrimValue(y: bytes)
    requires y != [] && !IsSpace(y[0]) && TrimRight(y) == y
    ensures Trim([SPACE] + y) == y
  {
    SkipStep([SPACE] + y);
    SkipStep(y);
    assert ([SPACE] + y)[1..] == y && IsSpace(SPACE);
  }

  /** A key and a value are found where they were put. */
  lemma {:induction false} KeyAndValue(d: Dialect, key: bytes, y: bytes)
    requires Word(key) && y != [] && !IsSpace(y[0]) && TrimRight(y) == y
    ensures var s, at := key + Between(d) + y, |key| + if d == Toml then 1 else 0;
            IndexOf(s, Mark(d)) == at && at < |s| && Trim(s[..at]) == key && Trim(s[at + 1..]) == y
  {
    hide TrimRight, SkipSpaces, Trim, IndexOf;
    var front := key + Gap(d);
    BetweenSplit(d, key, y);
    FrontOf(d, key);
    TrimValue(y);
    hide Between, Mark, Gap, Word;
    FoundBehind(front, Mark(d), [SPACE] + y);
  }

  /** What stands between a key and its mark. */
  function Gap(d: Dialect): bytes { if d == Toml then [SPACE] else [] }

  lemma BetweenSplit(d: Dialect, key: bytes, y: bytes)
    ensures key + Between(d) + y == key + Gap(d) + [Mark(d)] + ([SPACE] + y)
  {
    assert Between(d) == Gap(d) + [Mark(d), SPACE];
  }

  lemma FrontOf(d: Dialect, key: bytes)
    requires Word(key)
    ensures var front := key + Gap(d);
            && |front| == |key| + (if d == Toml then 1 else 0) && Trim(front) == key
            && forall k :: 0 <= k < |front| ==> front[k] != Mark(d)
  {
    WordEnds(key);
    assert key + [] == key;
  }

  lemma FoundBehind(front: bytes, mark: byte, rest: bytes)
    requires forall k :: 0 <= k < |front| ==> front[k] != mark
    ensures var s := front + [mark] + rest;
            IndexOf(s, mark) == |front| && s[..|front|] == front && s[|front| + 1..] == rest
  {
    var s := front + [mark] + rest;
    assert forall k :: 0 <= k < |front| ==> s[k] == front[k];
    IndexOfIs(s, mark, |front|);
  }

  /** The trimmed text of a setting line, after the comment scan left `x` of the value. */
  lemma {:induction false} TrimSetting(d: Dialect, key: bytes, x: bytes)
    requires Word(key) && x != [] && !IsSpace(x[0])
    ensures Trim(key + Between(d) + x) == key + Between(d) + TrimRight(x)
  {
    WordEnds(key);
    TrimRightConcat(key + Between(d), x);
  }

  lemma {:induction false} ScanSetting(d: Dialect, key: bytes, w: bytes)
    requires Word(key)
    ensures StripComment(SettingText(d, key, w), false) == SettingText(d, key, StripComment(w, false))
  {
    hide StripComment, SettingHead;
    HeadIsPlain(d, key);
    StripPlain(SettingHead(d, key), w, false);
  }

  lemma HeadIsPlain(d: Dialect, key: bytes)
    requires Word(key)
    ensures forall k :: 0 <= k < |SettingHead(d, key)| ==> SettingHead(d, key)[k] != QUOTE && SettingHead(d, key)[k] != HASH
  {
    WordEnds(key);
  }

  /** A setting line applies the setting with what the comment scan leaves of the value. */
  lemma {:induction false} SettingIsApplied(d: Dialect, table: map<bytes, Slot>, st: State, key: bytes, w: bytes)
    requires Word(key) && w != [] && !IsSpace(w[0]) && w[0] != HASH && st.section != []
    ensures Line(d, table, st, SettingText(d, key, w)) ==
            ApplySetting(d, table, st, FullName(st.section, key), TrimRight(StripComment(w, false)))
  {
    var x := StripComment(w, false);
    assert x != [] && x[0] == w[0];
    hide StripComment, ApplySetting, TomlLine, YamlLine, TrimRight, SettingText, SettingLine;
    ScanSetting(d, key, w);
    TrimRightConcat([], x);
    TrimRightKeeps(x);
    SettingContent(d, table, st, key, TrimRight(x));
    TrimSetting(d, key, x);
    if d == Toml {
      TomlSetting(table, st, key, w, x);
    } else {
      YamlSetting(table, st, key, w, x);
    }
  }

  lemma SettingContent(d: Dialect, table: map<bytes, Slot>, st: State, key: bytes, y: bytes)
    requires Word(key) && y != [] && !IsSpace(y[0]) && TrimRight(y) == y
    ensures SettingLine(d, table, st, key + Between(d) + y, Mark(d)) == ApplySetting(d, table, st, FullName(st.section, key), y)
  {
    hide TrimRight, SkipSpaces, Trim, IndexOf, ApplySetting;
    KeyAndValue(d, key, y);
  }

  lemma TomlSetting(table: map<bytes, Slot>, st: State, key: bytes, w: bytes, x: bytes)
    requires Word(key) && StripComment(SettingText(Toml, key, w), false) == SettingText(Toml, key, x)
    requires Trim(key + Between(Toml) + x) == key + Between(Toml) + TrimRight(x)
    ensures TomlLine(table, st, SettingText(Toml, key, w)) ==
            SettingLine(Toml, table, st, key + Between(Toml) + TrimRight(x), EQUALS)
  {
    hide TrimRight, SkipSpaces, Trim, StripComment, SettingLine;
    WordEnds(key);
    assert SettingText(Toml, key, x) == key + Between(Toml) + x;
    assert (key + Between(Toml) + TrimRight(x))[0] == key[0];
  }

  lemma YamlSetting(table: map<bytes, Slot>, st: State, key: bytes, w: bytes, x: bytes)
    requires Word(key) && st.section != [] && StripComment(SettingText(Yaml, key, w), false) == SettingText(Yaml, key, x)
    requires Trim(key + Between(Yaml) + x) == key + Between(Yaml) + TrimRight(x)
    ensures YamlLine(table, st, SettingText(Yaml, key, w)) ==
            SettingLine(Yaml, table, st, key + Between(Yaml) + TrimRight(x), COLON)
  {
    hide TrimRight, SkipSpaces, StripComment, SettingLine, Indent, SettingText, Trim;
    SettingPlaces(key, x);
    assert (key + Between(Yaml) + TrimRight(x)) != [];
  }

  lemma SettingPlaces(key: bytes, x: bytes)
    requires Word(key)
    ensures var rest := key + Between(Yaml) + x;
            var line := SettingText(Yaml, key, x);
            line == [SPACE, SPACE] + rest && Indent(line) == 2 && line[2..] == rest && TAB !in line[..2] && Trim(line) == Trim(rest)
  {
    hide TrimRight, SkipSpaces, Indent;
    WordEnds(key);
    var rest := key + Between(Yaml) + x;
    var line := SettingText(Yaml, key, x);
    assert line == [SPACE, SPACE] + rest;
    IndentOfTwo(rest);
    assert line[..2] == [SPACE, SPACE] && line[1..][1..] == rest && line[1..][0] == SPACE;
    SkipStep(line);
    SkipStep(line[1..]);
  }

  lemma IndentOfTwo(rest: bytes)
    requires rest != [] && rest[0] != SPACE && rest[0] != TAB
    ensures Indent([SPACE, SPACE] + rest) == 2
  {
    var s := [SPACE, SPACE] + rest;
    assert s[1..] == [SPACE] + rest && s[1..][1..] == rest;
    assert Indent(rest) == 0;
    assert Indent(s[1..]) == 1;
  }

  lemma {:induction false} HeaderIsRead(d: Dialect, table: map<bytes, Slot>, st: State, section: bytes)
    requires Word(section)
    ensures Line(d, table, st, HeaderText(d, section)) == Some(st.(section := section))
  {
    hide StripComment, TrimRight, SkipSpaces, Trim, IndexOf, Indent;
    var s := HeaderText(d, section);
    WordEnds(section);
    assert forall k :: 0 <= k < |s| ==> s[k] != QUOTE && s[k] != HASH;
    ScanPlain(s);
    TrimHeader(d, section);
    if d == Toml {
      IndexOfIs(s, CLOSE, |s| - 1);
      assert s[1..|s| - 1] == section;
    } else {
      IndexOfIs(s, COLON, |s| - 1);
      assert s[..|s| - 1] == section && s[|s|..] == [] && s[0..] == s && s[..0] == [];
    }
  }

  lemma TrimHeader(d: Dialect, section: bytes)
    requires Word(section)
    ensures var s := HeaderText(d, section); Trim(s) == s && (d == Yaml ==> Indent(s) == 0)
    ensures Trim([]) == []
  {
    WordEnds(section);
  }

  lemma ScanPlain(s: bytes)
    requires forall k :: 0 <= k < |s| ==> s[k] != QUOTE && s[k] != HASH
    ensures StripComment(s, false) == s
  {
    StripPlain(s, [], false);
    assert s + [] == s;
  }

  // ---------------------------------------------------------------- text settings

  lemma TrimmedByLast(x: bytes)
    requires x != [] && !IsSpace(x[|x| - 1])
    ensures TrimRight(x) == x
  {
  }

  lemma QuotedReadsBack(d: Dialect, s: bytes)
    ensures TrimRight(Quoted(s)) == Quoted(s) && ParseText(d, Quoted(s)) == s
  {
    var w := Quoted(s);
    UnescapeEscape(s);
    assert w[1..] == Escape(s) + [QUOTE] && w[|w| - 1] == QUOTE;
    TrimmedByLast(w);
  }

  /** The text a value points at, as its readers see it: a C string. */
  function TextAt(st: State, v: Value): Option<bytes>
  {
    if v.Text? && v.at.Some? && v.at.value < |st.owned| then Some(CString(st.owned[v.at.value])) else None
  }

  /** A line has been taken and its field holds this text. */
  predicate GivesText(r: Option<State>, field: nat, s: bytes)
  {
    r.Some? && field in r.value.config && TextAt(r.value, r.value.config[field]) == Some(s)
  }

  /** A text is what its field holds afterwards, in either dialect, just when it is not empty, every number sign in it has
      an even number of quotes before it, it holds no zero octet, and there is room for it. */
  lemma {:induction false} TextReadsBackExactly(d: Dialect, table: map<bytes, Slot>, st: State, key: bytes, s: bytes)
    requires Word(key) && st.section != []
    requires FullName(st.section, key) in table && table[FullName(st.section, key)].kind == KText
    ensures GivesText(Line(d, table, st, SettingText(d, key, Quoted(s))), table[FullName(st.section, key)].field, s)
            <==> s != [] && Safe(s) && 0 !in s && |st.owned| < OWNED_MAX
  {
    hide Line, SettingText, StripComment, TrimRight, ParseText, Safe, Escape, UnescapeFrom, GivesText, SetText;
    var x, field := StripComment(Quoted(s), false), table[FullName(st.section, key)].field;
    SettingIsApplied(d, table, st, key, Quoted(s));
    QuotedSurvives(s);
    var v := TrimRight(x);
    SetGives(st, field, ParseText(d, v), s);
    if Safe(s) {
      QuotedReadsBack(d, s);
    } else {
      TrimRightConcat([], x);
      TrimIsPart(x);
      HashesOfPart(x, 0, |v|);
      ParseTextAddsNone(d, v);
      CStringAddsNone(ParseText(d, v));
    }
  }

  lemma SetGives(st: State, field: nat, read: bytes, s: bytes)
    ensures GivesText(SetText(st, field, read), field, s) <==> read != [] && |st.owned| < OWNED_MAX && CString(read) == s
    ensures CString(s) == s <==> 0 !in s
    ensures CString(read) == s ==> 0 !in s
  {
    CStringWhole(s);
  }

  lemma CStringWhole(s: bytes)
    ensures CString(s) == s <==> 0 !in s
  {
    if 0 !in s {
      IndexOfIs(s, 0, |s|);
    }
  }

  lemma CStringAddsNone(s: bytes)
    ensures Hashes(CString(s)) <= Hashes(s)
  {
    HashesOfPart(s, 0, IndexOf(s, 0));
    assert s[..IndexOf(s, 0)] == s[0..IndexOf(s, 0)];
  }

  lemma TrimIsPart(x: bytes)
    ensures |TrimRight(x)| <= |x| && TrimRight(x) == x[0..|TrimRight(x)|]
  {
  }

  /** A cut text can still look whole: the letter a, a quote and a number sign are read, without complaint, as a and a backslash. */
  lemma CutWithoutComplaint(d: Dialect)
    ensures !Safe([97, QUOTE, HASH])
    ensures ParseText(d, TrimRight(StripComment(Quoted([97, QUOTE, HASH]), false))) == [97, BACKSLASH]
  {
    CutIsUnsafe();
    CutText();
    hide StripComment, TrimRight, UnescapeFrom, Quoted;
    var v := [QUOTE, 97, BACKSLASH, QUOTE];
    TrimmedByLast(v);
    assert v[1..] == [97, BACKSLASH, QUOTE] && v[1..][1..] == [BACKSLASH, QUOTE] && v[1..][1..][1..] == [QUOTE];
    UnescapeEnds([QUOTE]);
    UnescapeStep([BACKSLASH, QUOTE]);
    UnescapeStep([97, BACKSLASH, QUOTE]);
  }

  lemma CutIsUnsafe()
    ensures !Safe([97, QUOTE, HASH])
  {
    var s := [97, QUOTE, HASH];
    assert s[..2] == [97, QUOTE] && [97, QUOTE][1..] == [QUOTE] && [QUOTE][1..] == [];
    assert Quotes([QUOTE]) == 1 + Quotes([]) && Quotes([97, QUOTE]) == Quotes([QUOTE]);
    assert Quotes(s[..2]) == 1 && s[2] == HASH;
  }

  lemma CutText()
    ensures StripComment(Quoted([97, QUOTE, HASH]), false) == [QUOTE, 97, BACKSLASH, QUOTE]
  {
    hide StripComment;
    var s := [97, QUOTE, HASH];
    assert s[1..] == [QUOTE, HASH] && s[1..][1..] == [HASH] && [HASH][1..] == [];
    assert Escape([HASH]) == [HASH] && Escape([QUOTE, HASH]) == [BACKSLASH, QUOTE, HASH] && Escape(s) == [97, BACKSLASH, QUOTE, HASH];
    var w := [QUOTE] + ([97] + ([BACKSLASH] + ([QUOTE] + ([HASH] + [QUOTE]))));
    assert Quoted(s) == w;
    hide Escape, Quoted;
    StripOne(HASH, [QUOTE], false);
    StripOne(QUOTE, [HASH] + [QUOTE], true);
    StripOne(BACKSLASH, [QUOTE] + ([HASH] + [QUOTE]), true);
    StripOne(97, [BACKSLASH] + ([QUOTE] + ([HASH] + [QUOTE])), true);
    StripOne(QUOTE, [97] + ([BACKSLASH] + ([QUOTE] + ([HASH] + [QUOTE]))), false);
  }

  /** Texts without a quote, and texts without a number sign, are safe. */
  lemma {:induction false} WithoutQuoteOrHash(s: bytes)
    requires QUOTE !in s || HASH !in s
    ensures Safe(s)
  {
    forall k | 0 <= k < |s| && s[k] == HASH
      ensures Quotes(s[..k]) % 2 == 0
    {
      assert s[k] in s;
      NoQuotes(s[..k]);
    }
  }

  lemma {:induction false} NoQuotes(s: bytes)
    ensures QUOTE !in s ==> Quotes(s) == 0
  {
    if s != [] {
      NoQuotes(s[1..]);
      assert s[0] in s && forall c <- s[1..] :: c in s;
    }
  }

  // ---------------------------------------------------------------- texts in apostrophes

  function DoubleByte(c: byte): bytes { if c == APOSTROPHE then [c, c] else [c] }

  function Doubled(s: bytes): bytes { if s == [] then [] else DoubleByte(s[0]) + Doubled(s[1..]) }

  function Apostrophed(s: bytes): bytes { [APOSTROPHE] + Doubled(s) + [APOSTROPHE] }

  lemma UndoubleOne(c: byte, body: bytes)
    requires body != []
    ensures UndoubleFrom([c] + body) ==
            if c == APOSTROPHE && |body| > 1 && body[0] == APOSTROPHE then [APOSTROPHE] + UndoubleFrom(body[1..])
            else [c] + UndoubleFrom(body)
  {
    UndoubleStep([c] + body);
    hide UndoubleFrom;
    assert ([c] + body)[1..] == body && ([c] + body)[2..] == body[1..];
  }

  /** Undoubling undoes doubling. */
  lemma {:induction false} UndoubleDoubled(s: bytes)
    ensures UndoubleFrom(Doubled(s) + [APOSTROPHE]) == s
  {
    hide UndoubleFrom;
    if s == [] {
      UndoubleEnds([APOSTROPHE]);
      assert Doubled(s) + [APOSTROPHE] == [APOSTROPHE];
    } else {
      var c, rest := s[0], Doubled(s[1..]) + [APOSTROPHE];
      if c == APOSTROPHE {
        assert Doubled(s) + [APOSTROPHE] == [c] + ([c] + rest) && ([c] + rest)[1..] == rest;
        UndoubleOne(c, [c] + rest);
      } else {
        assert Doubled(s) + [APOSTROPHE] == [c] + rest;
        UndoubleOne(c, rest);
      }
      UndoubleDoubled(s[1..]);
      assert [s[0]] + s[1..] == s;
    }
  }

  lemma {:induction false} StripSafe(w: bytes, inQuotes: bool)
    ensures var x := StripComment(w, inQuotes);
            if SafeFrom(w, inQuotes) then x == w else Hashes(x) < Hashes(w)
  {
    if w != [] {
      var next := if w[0] == QUOTE then !inQuotes else inQuotes;
      StripSafe(w[1..], next);
      assert [w[0]] + w[1..] == w;
      HashesConcat([w[0]], StripComment(w[1..], next));
      HashesOne(w[0]);
    }
  }

  lemma SafeOne(c: byte, w: bytes, inQuotes: bool)
    ensures SafeFrom([c] + w, inQuotes) <==> (c == HASH ==> inQuotes) && SafeFrom(w, if c == QUOTE then !inQuotes else inQuotes)
    ensures Hashes([c] + w) == (if c == HASH then 1 else 0) + Hashes(w)
  {
    assert ([c] + w)[1..] == w;
  }

  lemma {:induction false} DoublingIsSafe(s: bytes, t: bytes, inQuotes: bool)
    requires t == [APOSTROPHE]
    ensures SafeFrom(Doubled(s) + t, inQuotes) <==> SafeFrom(s, inQuotes)
    ensures Hashes(Doubled(s) + t) == Hashes(s)
  {
    hide SafeFrom, Hashes, Doubled;
    DoubledStep(s, t);
    if s == [] {
      SafeOne(APOSTROPHE, [], inQuotes);
      SafeNothing(inQuotes);
    } else {
      var c, rest := s[0], Doubled(s[1..]) + t;
      DoublingIsSafe(s[1..], t, if c == QUOTE then !inQuotes else inQuotes);
      SafeOne(c, rest, inQuotes);
      SafeOne(c, s[1..], inQuotes);
      SafeOne(c, [c] + rest, inQuotes);
    }
  }

  lemma DoubledFirst(s: bytes)
    ensures Doubled(s) == if s == [] then [] else DoubleByte(s[0]) + Doubled(s[1..])
  {
  }

  lemma DoubledStep(s: bytes, t: bytes)
    ensures s == [] ==> Doubled(s) + t == t && t == t + []
    ensures s != [] ==>
              var c, rest := s[0], Doubled(s[1..]) + t;
              && s == [c] + s[1..]
              && Doubled(s) + t == if c == APOSTROPHE then [c] + ([c] + rest) else [c] + rest
  {
    DoubledFirst(s);
    hide Doubled;
    if s != [] {
      Associative(DoubleByte(s[0]), Doubled(s[1..]), t);
      Twice(s[0], Doubled(s[1..]) + t);
    }
  }

  lemma Twice(c: byte, t: bytes)
    ensures [c, c] + t == [c] + ([c] + t)
  {
  }

  lemma SafeNothing(inQuotes: bool)
    ensures SafeFrom([], inQuotes) && SafeFrom([], !inQuotes) && Hashes([]) == 0
  {
  }

  /** Every number sign has an odd number of quotes before it: there the comment scan takes it to be within quotes. */
  ghost predicate SafeUnquoted(s: bytes) { forall k :: 0 <= k < |s| && s[k] == HASH ==> Quotes(s[..k]) % 2 == 1 }

  lemma ApostrophedSurvives(s: bytes)
    ensures var x := StripComment(Apostrophed(s), false);
            && x != [] && x[0] == APOSTROPHE
            && (SafeUnquoted(s) ==> x == Apostrophed(s)) && (!SafeUnquoted(s) ==> Hashes(x) < Hashes(s))
  {
    var body := Doubled(s) + [APOSTROPHE];
    SafeFromIs(s, false);
    DoublingIsSafe(s, [APOSTROPHE], false);
    assert Apostrophed(s) == [APOSTROPHE] + body;
    SafeOne(APOSTROPHE, body, false);
    StripSafe(Apostrophed(s), false);
    StripOne(APOSTROPHE, body, false);
  }

  lemma {:induction false} UndoubleAddsNone(body: bytes)
    ensures Hashes(UndoubleFrom(body)) <= Hashes(body)
    decreases |body|
  {
    if |body| > 1 {
      if body[0] == APOSTROPHE && |body| > 2 && body[1] == APOSTROPHE {
        UndoubleAddsNone(body[2..]);
        assert body[1..][1..] == body[2..];
      } else {
        UndoubleAddsNone(body[1..]);
      }
    }
  }

  lemma ApostrophedBegins(v: bytes)
    requires v != [] && v[0] == APOSTROPHE
    ensures Hashes(ParseText(Yaml, v)) <= Hashes(v)
  {
    UndoubleAddsNone(v[1..]);
  }

  lemma ApostrophedReadsBack(s: bytes)
    ensures TrimRight(Apostrophed(s)) == Apostrophed(s) && ParseText(Yaml, Apostrophed(s)) == s
  {
    var w := Apostrophed(s);
    UndoubleDoubled(s);
    assert w[1..] == Doubled(s) + [APOSTROPHE] && w[0] == APOSTROPHE && w[|w| - 1] == APOSTROPHE;
    TrimmedByLast(w);
  }

  /** In YAML a text in apostrophes is what its field holds afterwards just when it is not empty, every number sign in it
      has an odd number of quotes before it, it holds no zero octet, and there is room for it. */
  lemma {:induction false} ApostrophedReadsBackExactly(table: map<bytes, Slot>, st: State, key: bytes, s: bytes)
    requires Word(key) && st.section != []
    requires FullName(st.section, key) in table && table[FullName(st.section, key)].kind == KText
    ensures GivesText(Line(Yaml, table, st, SettingText(Yaml, key, Apostrophed(s))), table[FullName(st.section, key)].field, s)
            <==> s != [] && SafeUnquoted(s) && 0 !in s && |st.owned| < OWNED_MAX
  {
    hide Line, SettingText, StripComment, TrimRight, ParseText, SafeUnquoted, Doubled, UndoubleFrom, GivesText, SetText;
    var x, field := StripComment(Apostrophed(s), false), table[FullName(st.section, key)].field;
    SettingIsApplied(Yaml, table, st, key, Apostrophed(s));
    ApostrophedSurvives(s);
    var v := TrimRight(x);
    SetGives(st, field, ParseText(Yaml, v), s);
    if SafeUnquoted(s) {
      ApostrophedReadsBack(s);
    } else {
      TrimRightConcat([], x);
      TrimIsPart(x);
      HashesOfPart(x, 0, |v|);
      ApostrophedBegins(v);
      CStringAddsNone(ParseText(Yaml, v));
    }
  }

  // ---------------------------------------------------------------- other settings

  lemma {:induction false} NumberText(n: int)
    ensures var w := Signed(n);
            && w != [] && !IsSpace(w[0]) && w[0] != HASH && TrimRight(StripComment(w, false)) == w
            && ParseInteger(CString(w)) == Some(n)
  {
    SignedReadsBack(n);
    var w := Signed(n);
    hide StripComment, ParseInteger, Signed;
    assert forall k :: 0 <= k < |w| ==> w[k] in w && (IsDigit(w[k]) || w[k] == 45);
    ScanPlain(w);
    TrimmedByLast(w);
    IndexOfIs(w, 0, |w|);
    assert CString(w) == w;
  }

  lemma FlagText(b: bool)
    ensures var w := if b then TrueText() else FalseText();
            && w != [] && !IsSpace(w[0]) && w[0] != HASH && TrimRight(StripComment(w, false)) == w && CString(w) == w
  {
    var w := if b then TrueText() else FalseText();
    ScanPlain(w);
    TrimmedByLast(w);
    IndexOfIs(w, 0, |w|);
  }

  // ---------------------------------------------------------------- lists

  /** Items that both dialects read alike: no quote, no backslash, no line end, and no octet that ends a C string. */
  predicate PlainItem(s: bytes)
  {
    s != [] && forall k :: 0 <= k < |s| ==> s[k] != QUOTE && s[k] != BACKSLASH && s[k] != NEWLINE && s[k] != 0
  }

  /** Items without quotes: what is written between two quotes is one item in both dialects. */
  predicate QuoteFree(items: seq<bytes>)
  {
    items != [] && forall i, k :: 0 <= i < |items| && 0 <= k < |items[i]| ==> items[i][k] != QUOTE
  }

  /** No backslash but perhaps the last octet. */
  predicate Unescaped(item: bytes) { forall k :: 0 <= k < |item| - 1 ==> item[k] != BACKSLASH }

  /** Items that YAML leaves as they are: none is empty, and none holds an escape. */
  predicate KeptItems(items: seq<bytes>) { items != [] && forall i :: 0 <= i < |items| ==> items[i] != [] && Unescaped(items[i]) }

  lemma PlainIsKept(items: seq<bytes>)
    requires PlainItems(items)
    ensures QuoteFree(items) && KeptItems(items)
  {
    assert forall i :: 0 <= i < |items| ==> PlainItem(items[i]);
  }

  predicate PlainItems(items: seq<bytes>) { items != [] && forall i :: 0 <= i < |items| ==> PlainItem(items[i]) }

  function Joined(items: seq<bytes>): bytes
  {
    if items == [] then [] else items[0] + if |items| == 1 then [] else [COMMA] + Joined(items[1..])
  }

  lemma {:induction false} StripInside(item: bytes, t: bytes)
    requires forall k :: 0 <= k < |item| ==> item[k] != QUOTE
    ensures StripComment(item + t, true) == item + StripComment(t, true)
  {
    if item == [] {
      assert item + t == t;
    } else {
      assert item + t == [item[0]] + (item[1..] + t);
      StripOne(item[0], item[1..] + t, true);
      StripInside(item[1..], t);
      assert item == [item[0]] + item[1..];
    }
  }

  /** What follows the first item of a list. */
  function Rest(items: seq<bytes>): bytes
    requires items != []
  {
    if |items| == 1 then [] else [COMMA] + QuotedItems(items[1..])
  }

  lemma FirstItem(items: seq<bytes>, t: bytes)
    requires items != []
    ensures QuotedItems(items) + t == [QUOTE] + (items[0] + ([QUOTE] + (Rest(items) + t)))
  {
  }

  lemma StripItem(item: bytes, t: bytes)
    requires forall k :: 0 <= k < |item| ==> item[k] != QUOTE
    ensures StripComment([QUOTE] + (item + ([QUOTE] + t)), false) == [QUOTE] + (item + ([QUOTE] + StripComment(t, false)))
  {
    hide StripComment;
    StripOne(QUOTE, item + ([QUOTE] + t), false);
    StripInside(item, [QUOTE] + t);
    StripOne(QUOTE, t, true);
  }

  lemma {:induction false} StripItems(items: seq<bytes>, t: bytes)
    requires QuoteFree(items)
    ensures StripComment(QuotedItems(items) + t, false) == QuotedItems(items) + StripComment(t, false)
    decreases |items|
  {
    hide StripComment, QuotedItems;
    FirstItem(items, t);
    FirstItem(items, StripComment(t, false));
    StripItem(items[0], Rest(items) + t);
    if |items| == 1 {
      assert Rest(items) + t == t && Rest(items) + StripComment(t, false) == StripComment(t, false);
    } else {
      Associative([COMMA], QuotedItems(items[1..]), t);
      StripOne(COMMA, QuotedItems(items[1..]) + t, false);
      StripItems(items[1..], t);
      Associative([COMMA], QuotedItems(items[1..]), StripComment(t, false));
    }
  }

  lemma {:induction false} ItemsInside(item: bytes, t: bytes)
    requires t != [] && forall k :: 0 <= k < |item| ==> item[k] != QUOTE
    ensures TomlItems(item + t, true, true) == item + TomlItems(t, true, true)
  {
    if item == [] {
      assert item + t == t;
    } else {
      assert (item + t)[1..] == item[1..] + t;
      ItemsInside(item[1..], t);
      assert item == [item[0]] + item[1..];
    }
  }

  lemma TomlItem(item: bytes, rest: bytes, wroteAny: bool)
    requires rest != [] && forall k :: 0 <= k < |item| ==> item[k] != QUOTE
    ensures TomlItems([QUOTE] + (item + ([QUOTE] + rest)), false, wroteAny) ==
            (if wroteAny then [COMMA] else []) + (item + TomlItems(rest, false, true))
  {
    hide TomlItems;
    var body := [QUOTE] + (item + ([QUOTE] + rest));
    TomlItemsStep(body, false, wroteAny);
    assert body[1..] == item + ([QUOTE] + rest);
    ItemsInside(item, [QUOTE] + rest);
    TomlItemsStep([QUOTE] + rest, true, true);
    assert ([QUOTE] + rest)[1..] == rest;
  }

  lemma {:induction false} TomlItemsReadBack(items: seq<bytes>, wroteAny: bool)
    requires QuoteFree(items)
    ensures TomlItems(QuotedItems(items) + [CLOSE], false, wroteAny) == (if wroteAny then [COMMA] else []) + Joined(items)
    decreases |items|
  {
    hide TomlItems, QuotedItems;
    var rest := Rest(items) + [CLOSE];
    FirstItem(items, [CLOSE]);
    TomlItem(items[0], rest, wroteAny);
    if |items| == 1 {
      TomlItemsEnd(rest, false, true);
      assert Joined(items) == items[0] + [];
    } else {
      var more := QuotedItems(items[1..]) + [CLOSE];
      Associative([COMMA], QuotedItems(items[1..]), [CLOSE]);
      TomlItemsReadBack(items[1..], true);
      hide Joined;
      TomlComma(more);
      JoinedStep(items);
    }
  }

  lemma TomlComma(more: bytes)
    requires more != []
    ensures TomlItems([COMMA] + more, false, true) == TomlItems(more, false, true)
  {
    hide TomlItems;
    TomlItemsStep([COMMA] + more, false, true);
    assert ([COMMA] + more)[1..] == more && [] + TomlItems(more, false, true) == TomlItems(more, false, true);
  }

  lemma JoinedStep(items: seq<bytes>)
    requires |items| > 1
    ensures Joined(items) == items[0] + ([COMMA] + Joined(items[1..]))
  {
  }

  lemma {:induction false} FlowInside(item: bytes, t: bytes, cur: bytes)
    requires forall k :: 0 <= k < |item| ==> item[k] != QUOTE
    ensures FlowItems(item + t, cur, true, false) == FlowItems(t, cur + item, true, false)
  {
    if item == [] {
      assert item + t == t && cur + item == cur;
    } else {
      hide FlowItems;
      FlowItemsStep(item + t, cur, true, false);
      assert (item + t)[1..] == item[1..] + t;
      FlowInside(item[1..], t, cur + [item[0]]);
      assert cur + [item[0]] + item[1..] == cur + item;
    }
  }

  function Enquoted(items: seq<bytes>): (r: seq<bytes>)
  {
    if items == [] then [] else [[QUOTE] + items[0] + [QUOTE]] + Enquoted(items[1..])
  }

  lemma TrimQuotes(item: bytes)
    ensures Trim([QUOTE] + item + [QUOTE]) == [QUOTE] + item + [QUOTE]
  {
    TrimmedByLast([QUOTE] + item + [QUOTE]);
  }

  lemma {:induction false} FlowItemsReadBack(items: seq<bytes>)
    requires QuoteFree(items)
    ensures FlowItems(QuotedItems(items), [], false, false) == Enquoted(items)
    decreases |items|
  {
    hide FlowItems, Trim;
    var item, rest := items[0], if |items| == 1 then [] else [COMMA] + QuotedItems(items[1..]);
    var v, cur := QuotedItems(items), [QUOTE] + item + [QUOTE];
    assert v == [QUOTE] + (item + ([QUOTE] + rest));
    FlowItemsStep(v, [], false, false);
    assert v[1..] == item + ([QUOTE] + rest) && [] + [QUOTE] == [QUOTE];
    FlowInside(item, [QUOTE] + rest, [QUOTE]);
    FlowItemsStep([QUOTE] + rest, [QUOTE] + item, true, false);
    assert ([QUOTE] + rest)[1..] == rest;
    TrimQuotes(item);
    if |items| == 1 {
      FlowItemsEnd(rest, cur, false, false);
      assert Enquoted(items[1..]) == [];
    } else {
      FlowItemsStep(rest, cur, false, false);
      assert rest[1..] == QuotedItems(items[1..]);
      FlowItemsReadBack(items[1..]);
    }
  }

  /** A text between quotes keeps its length, and then itself, just when it holds no escape. */
  lemma {:induction false} UnescapeExactly(item: bytes)
    ensures var r := UnescapeFrom(item + [QUOTE]);
            && |r| <= |item| && (r == [] <==> item == [])
            && (|r| == |item| <==> Unescaped(item)) && (Unescaped(item) ==> r == item)
    decreases |item|
  {
    hide UnescapeFrom;
    var body := item + [QUOTE];
    if item == [] {
      UnescapeEnds(body);
    } else {
      UnescapeStep(body);
      if item[0] == BACKSLASH && |item| > 1 {
        assert body[2..] == item[2..] + [QUOTE];
        UnescapeExactly(item[2..]);
      } else {
        assert body[1..] == item[1..] + [QUOTE];
        UnescapeExactly(item[1..]);
        assert item == [item[0]] + item[1..];
        assert Unescaped(item) <==> Unescaped(item[1..]);
      }
    }
  }

  lemma QuotedItemText(item: bytes)
    ensures ParseText(Yaml, [QUOTE] + item + [QUOTE]) == UnescapeFrom(item + [QUOTE])
  {
    hide UnescapeFrom;
    var q := [QUOTE] + item + [QUOTE];
    assert q[1..] == item + [QUOTE] && q[|q| - 1] == QUOTE;
  }

  lemma {:induction false} JoinReadsBack(items: seq<bytes>, wroteAny: bool)
    requires KeptItems(items)
    ensures JoinItems(Enquoted(items), wroteAny) == (if wroteAny then [COMMA] else []) + Joined(items)
    decreases |items|
  {
    QuotedItemText(items[0]);
    UnescapeExactly(items[0]);
    hide ParseText, JoinItems, Unescaped, UnescapeFrom;
    var quoted, rest := Enquoted(items), Enquoted(items[1..]);
    assert quoted == [[QUOTE] + items[0] + [QUOTE]] + rest && quoted[1..] == rest;
    JoinStep(quoted, wroteAny);
    if |items| == 1 {
      JoinEnd(rest, true);
      assert Joined(items) == items[0];
      assert (if wroteAny then [COMMA] else []) + items[0] + [] == (if wroteAny then [COMMA] else []) + items[0];
    } else {
      JoinReadsBack(items[1..], true);
      JoinedStep(items);
      hide Joined, Enquoted;
      Associative(if wroteAny then [COMMA] else [], items[0], [COMMA] + Joined(items[1..]));
    }
  }

  lemma {:induction false} ListText(d: Dialect, items: seq<bytes>)
    requires PlainItems(items)
    ensures var w := LiteralText(AList(items));
            && w != [] && !IsSpace(w[0]) && w[0] != HASH && TrimRight(StripComment(w, false)) == w
            && ParseArray(d, w) == Joined(items) && Joined(items) != []
  {
    hide StripComment, TomlItems, FlowItems, JoinItems, QuotedItems, TrimRight, Joined;
    var inner := QuotedItems(items);
    PlainIsKept(items);
    ListScan(items);
    ListPlaces(inner);
    TomlItemsReadBack(items, false);
    FlowItemsReadBack(items);
    JoinReadsBack(items, false);
    JoinedSome(items);
    assert [] + Joined(items) == Joined(items);
  }

  lemma JoinedSome(items: seq<bytes>)
    requires PlainItems(items)
    ensures Joined(items) != []
  {
    assert PlainItem(items[0]);
  }

  lemma ListPlaces(inner: bytes)
    ensures var w := [OPEN] + inner + [CLOSE];
            && |w| >= 2 && w[0] == OPEN && w[|w| - 1] == CLOSE && TrimRight(w) == w
            && w[1..] == inner + [CLOSE] && w[1..|w| - 1] == inner
  {
    TrimmedByLast([OPEN] + inner + [CLOSE]);
  }

  lemma ListScan(items: seq<bytes>)
    requires QuoteFree(items)
    ensures var w := [OPEN] + QuotedItems(items) + [CLOSE]; StripComment(w, false) == w
  {
    hide StripComment, QuotedItems;
    var inner := QuotedItems(items);
    Associative([OPEN], inner, [CLOSE]);
    StripOne(OPEN, inner + [CLOSE], false);
    StripItems(items, [CLOSE]);
    StripOne(CLOSE, [], false);
    StripNothing();
    assert [CLOSE] + [] == [CLOSE];
  }

  lemma StripNothing()
    ensures StripComment([], false) == []
  {
  }

  // ---------------------------------------------------------------- files

  /** What an assignment means, without any text between. */
  function Assign(table: map<bytes, Slot>, st: State, a: Assignment): Option<State>
    requires FullName(a.section, a.key) in table
  {
    var slot, named := table[FullName(a.section, a.key)], st.(section := a.section);
    match a.lit
    case AText(s) => SetText(named, slot.field, s)
    case ANumber(n) => SetNumber(named, slot, Some(n))
    case AFlag(b) => Some(SetField(named, slot.field, Flag(b)))
    case AList(items) => SetText(named, slot.field, Joined(items))
  }

  ghost predicate Writable(table: map<bytes, Slot>, a: Assignment)
  {
    && Word(a.section) && Word(a.key) && FullName(a.section, a.key) in table
    && var kind := table[FullName(a.section, a.key)].kind;
       match a.lit
       case AText(s) => kind == KText && s != [] && Safe(s) && 0 !in s
       case ANumber(_) => kind == KInteger || kind == KPort || kind == KPositive
       case AFlag(_) => kind == KFlag
       case AList(items) => kind == KList && PlainItems(items)
  }

  function AssignAll(table: map<bytes, Slot>, st: State, settings: seq<Assignment>): Option<State>
    requires forall i :: 0 <= i < |settings| ==> FullName(settings[i].section, settings[i].key) in table
    decreases |settings|
  {
    if settings == [] then Some(st)
    else
      match Assign(table, st, settings[0])
      case None => None
      case Some(next) => AssignAll(table, next, settings[1..])
  }

  lemma {:induction false} SettingReadsBack(d: Dialect, table: map<bytes, Slot>, st: State, a: Assignment)
    requires Writable(table, a) && st.section == a.section
    ensures Line(d, table, st, SettingText(d, a.key, LiteralText(a.lit))) == Assign(table, st, a)
  {
    hide Line, SettingText, StripComment, TrimRight, ParseText, Quoted, Safe, ParseArray, Signed, ParseInteger, PlainItems, Joined;
    var w := LiteralText(a.lit);
    assert st == st.(section := a.section);
    match a.lit {
      case AText(s) =>
        QuotedSurvives(s);
        QuotedReadsBack(d, s);
        QuotedBegins(s);
      case ANumber(n) => NumberText(n);
      case AFlag(b) => FlagText(b);
      case AList(items) => ListText(d, items);
    }
    SettingIsApplied(d, table, st, a.key, w);
  }

  lemma QuotedBegins(s: bytes)
    ensures Quoted(s) != [] && Quoted(s)[0] == QUOTE
  {
  }

  lemma WritableSection(table: map<bytes, Slot>, a: Assignment)
    requires Writable(table, a)
    ensures Word(a.section)
  {
  }

  /** Loading a file written in either dialect makes exactly the assignments written, in order. */
  lemma {:induction false} FileReadsBack(d: Dialect, table: map<bytes, Slot>, st: State, settings: seq<Assignment>)
    requires forall i :: 0 <= i < |settings| ==> Writable(table, settings[i])
    ensures forall i :: 0 <= i < |settings| ==> FullName(settings[i].section, settings[i].key) in table
    ensures Load(d, table, st, FileLines(d, settings)) == AssignAll(table, st, settings)
    decreases |settings|
  {
    forall i | 0 <= i < |settings|
      ensures FullName(settings[i].section, settings[i].key) in table
    {
      assert Writable(table, settings[i]);
    }
    hide Line, Writable, HeaderText, SettingText, LiteralText, SetText, SetNumber;
    if settings != [] {
      var a, rest := settings[0], FileLines(d, settings[1..]);
      LoadAssignment(d, table, st, a, rest);
      assert Writable(table, a);
      hide Assign;
      match Assign(table, st, a) {
        case None =>
        case Some(next) => FileReadsBack(d, table, next, settings[1..]);
      }
    }
  }

  lemma LoadAssignment(d: Dialect, table: map<bytes, Slot>, st: State, a: Assignment, rest: seq<bytes>)
    requires Writable(table, a)
    ensures Load(d, table, st, [HeaderText(d, a.section), SettingText(d, a.key, LiteralText(a.lit))] + rest) ==
            match Assign(table, st, a) case None => None case Some(next) => Load(d, table, next, rest)
  {
    hide Line, HeaderText, SettingText, LiteralText, Load, Assign;
    var header, setting := HeaderText(d, a.section), SettingText(d, a.key, LiteralText(a.lit));
    var named := st.(section := a.section);
    WritableSection(table, a);
    HeaderIsRead(d, table, st, a.section);
    SettingReadsBack(d, table, named, a);
    LoadTwo(d, table, st, header, setting, rest);
    SectionIsSet(table, st, a);
  }

  lemma SectionIsSet(table: map<bytes, Slot>, st: State, a: Assignment)
    requires FullName(a.section, a.key) in table
    ensures Assign(table, st.(section := a.section), a) == Assign(table, st, a)
  {
    hide SetText, SetNumber;
    assert st.(section := a.section).(section := a.section) == st.(section := a.section);
  }

  lemma LoadTwo(d: Dialect, table: map<bytes, Slot>, st: State, first: bytes, second: bytes, rest: seq<bytes>)
    ensures Load(d, table, st, [first, second] + rest) ==
            match Line(d, table, st, first)
            case None => None
            case Some(named) =>
              match Line(d, table, named, second)
              case None => None
              case Some(next) => Load(d, table, next, rest)
  {
    hide Line;
    assert ([first, second] + rest)[1..] == [second] + rest && ([second] + rest)[1..] == rest;
  }

  // ---------------------------------------------------------------- the loaded configuration

  function FieldOf(table: map<bytes, Slot>, a: Assignment): nat
    requires FullName(a.section, a.key) in table
  {
    table[FullName(a.section, a.key)].field
  }

  ghost predicate Holds(table: map<bytes, Slot>, st: State, a: Assignment)
    requires FullName(a.section, a.key) in table
  {
    && FieldOf(table, a) in st.config
    && var v := st.config[FieldOf(table, a)];
       match a.lit
       case AText(s) => TextAt(st, v) == Some(s)
       case AList(items) => TextAt(st, v) == Some(Joined(items))
       case AFlag(b) => v == Flag(b)
       case ANumber(n) =>
         v == Number(if table[FullName(a.section, a.key)].kind == KPositive then Clamp(n) % 0x1_0000_0000 else Clamp(n))
  }

  /** Texts and lists take one of the loader's places each; numbers and flags take none. */
  predicate TakesPlace(a: Assignment) { a.lit.AText? || a.lit.AList? }

  function Places(settings: seq<Assignment>): nat
  {
    if settings == [] then 0 else (if TakesPlace(settings[0]) then 1 else 0) + Places(settings[1..])
  }

  lemma {:induction false} JoinedWithoutZero(items: seq<bytes>)
    requires PlainItems(items)
    ensures 0 !in Joined(items)
    decreases |items|
  {
    assert PlainItem(items[0]);
    if |items| > 1 {
      JoinedStep(items);
      JoinedWithoutZero(items[1..]);
    }
  }

  lemma AssignedExactly(table: map<bytes, Slot>, st: State, a: Assignment)
    requires Writable(table, a) && Assign(table, st, a).Some?
    ensures var next, f := Assign(table, st, a).value, FieldOf(table, a);
            && st.owned <= next.owned && f in next.config
            && |next.owned| == |st.owned| + (if TakesPlace(a) && |st.owned| < OWNED_MAX then 1 else 0)
            && (if TakesPlace(a) && |st.owned| >= OWNED_MAX then next.config[f] == Text(None) else Holds(table, next, a))
            && forall g :: g != f ==> (g in next.config <==> g in st.config) && (g in st.config ==> next.config[g] == st.config[g])
  {
    hide Joined, PlainItems, Safe, Word, CString;
    match a.lit {
      case AList(items) =>
        JoinedSome(items);
        JoinedWithoutZero(items);
        CStringWhole(Joined(items));
      case AText(s) => CStringWhole(s);
      case _ =>
    }
  }

  lemma StillHolds(table: map<bytes, Slot>, st: State, next: State, a: Assignment)
    requires FullName(a.section, a.key) in table && Holds(table, st, a)
    requires st.owned <= next.owned && FieldOf(table, a) in next.config && next.config[FieldOf(table, a)] == st.config[FieldOf(table, a)]
    ensures Holds(table, next, a)
  {
  }

  lemma NothingHeld(table: map<bytes, Slot>, st: State, a: Assignment)
    requires FullName(a.section, a.key) in table && TakesPlace(a)
    requires FieldOf(table, a) in st.config && st.config[FieldOf(table, a)] == Text(None)
    ensures !Holds(table, st, a)
  {
  }

  /** Settings of other fields leave a field as it is, and a text once loaded stays where it is. */
  lemma {:induction false} OthersKeep(table: map<bytes, Slot>, st: State, settings: seq<Assignment>, f: nat)
    requires forall k :: 0 <= k < |settings| ==> FullName(settings[k].section, settings[k].key) in table && Writable(table, settings[k])
    requires AssignAll(table, st, settings).Some? && f in st.config
    requires forall k :: 0 <= k < |settings| ==> FieldOf(table, settings[k]) != f
    ensures var last := AssignAll(table, st, settings).value;
            f in last.config && last.config[f] == st.config[f] && st.owned <= last.owned
    decreases |settings|
  {
    if settings != [] {
      AssignedExactly(table, st, settings[0]);
      hide Assign, Holds, Writable;
      OthersKeep(table, Assign(table, st, settings[0]).value, settings[1..], f);
    }
  }

  /**
   * Of all settings for a field the loaded configuration holds the one written last; a text or list among them if and
   * only if fewer than 64 texts and lists were loaded before it. Otherwise the field ends up without a text, whatever it
   * held before, and the load does not fail.
   */
  lemma {:induction false} LastWins(table: map<bytes, Slot>, st: State, settings: seq<Assignment>, i: nat)
    requires forall k :: 0 <= k < |settings| ==> FullName(settings[k].section, settings[k].key) in table && Writable(table, settings[k])
    requires i < |settings| && AssignAll(table, st, settings).Some?
    requires forall k :: i < k < |settings| ==> FieldOf(table, settings[k]) != FieldOf(table, settings[i])
    ensures var last, a := AssignAll(table, st, settings).value, settings[i];
            && st.owned <= last.owned
            && (Holds(table, last, a) <==> (TakesPlace(a) ==> |st.owned| + Places(settings[..i]) < OWNED_MAX))
            && (!Holds(table, last, a) ==> FieldOf(table, a) in last.config && last.config[FieldOf(table, a)] == Text(None))
    decreases |settings|
  {
    hide Assign, Holds, Writable, TakesPlace;
    var a := settings[0];
    AssignedExactly(table, st, a);
    var next := Assign(table, st, a).value;
    if i > 0 {
      LastWins(table, next, settings[1..], i - 1);
      assert settings[..i][1..] == settings[1..][..i - 1];
    } else {
      OthersKeep(table, next, settings[1..], FieldOf(table, a));
      assert settings[..i] == [];
      var last := AssignAll(table, next, settings[1..]).value;
      if TakesPlace(a) && |st.owned| >= OWNED_MAX {
        NothingHeld(table, last, a);
      } else {
        StillHolds(table, next, last, a);
      }
    }
  }

  /** The same of a file that loads, from its lines to what its readers find in the configuration. */
  lemma LoadedFileHolds(d: Dialect, table: map<bytes, Slot>, config: map<nat, Value>, settings: seq<Assignment>, i: nat)
    requires forall k :: 0 <= k < |settings| ==> FullName(settings[k].section, settings[k].key) in table && Writable(table, settings[k])
    requires Load(d, table, State([], config, []), FileLines(d, settings)).Some?
    requires i < |settings| && forall k :: i < k < |settings| ==> FieldOf(table, settings[k]) != FieldOf(table, settings[i])
    ensures Holds(table, Load(d, table, State([], config, []), FileLines(d, settings)).value, settings[i])
            <==> (TakesPlace(settings[i]) ==> Places(settings[..i]) < OWNED_MAX)
  {
    hide Load, FileLines, Holds, Writable, AssignAll, TakesPlace;
    FileReadsBack(d, table, State([], config, []), settings);
    LastWins(table, State([], config, []), settings, i);
  }
}
