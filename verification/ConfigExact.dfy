/** When exactly lists and bare texts read back from a configuration file. */
module ConfigExact {
  import opened Bytes
  import opened CText
  import opened Config
  import opened ConfigRoundTrip
  import opened Outcome

  // ---------------------------------------------------------------- lists in TOML

  lemma {:induction false} TomlItemsLoseQuotes(body: bytes, inText: bool, wroteAny: bool)
    ensures QUOTE !in TomlItems(body, inText, wroteAny)
  {
    hide TomlItems;
    if |body| <= 1 {
      TomlItemsEnd(body, inText, wroteAny);
    } else {
      TomlItemsStep(body, inText, wroteAny);
      TomlItemsLoseQuotes(body[1..], true, true);
      TomlItemsLoseQuotes(body[1..], false, wroteAny);
      TomlItemsLoseQuotes(body[1..], inText, wroteAny);
    }
  }

  lemma {:induction false} JoinedQuotes(items: seq<bytes>)
    requires items != []
    ensures QUOTE !in Joined(items) <==> QuoteFree(items)
    decreases |items|
  {
    if |items| == 1 {
      assert Joined(items) == items[0];
      FirstFree(items);
    } else {
      JoinedStep(items);
      JoinedQuotes(items[1..]);
      hide Joined;
      FirstFree(items);
    }
  }

  lemma FirstFree(items: seq<bytes>)
    requires items != []
    ensures QuoteFree(items) <==> QUOTE !in items[0] && (|items| == 1 || QuoteFree(items[1..]))
  {
    if QUOTE !in items[0] && (|items| == 1 || QuoteFree(items[1..])) {
      forall i, k | 0 <= i < |items| && 0 <= k < |items[i]| ensures items[i][k] != QUOTE {
        if i > 0 {
          assert items[1..][i - 1][k] == items[i][k];
        }
      }
    }
    if QuoteFree(items) && |items| > 1 {
      forall i, k | 0 <= i < |items[1..]| && 0 <= k < |items[1..][i]| ensures items[1..][i][k] != QUOTE {
        assert items[1..][i][k] == items[i + 1][k];
      }
    }
  }

  /** What a list setting reads. */
  function ListRead(d: Dialect, v: bytes): bytes { if ParseArray(d, v) == [] then ParseText(d, v) else ParseArray(d, v) }

  lemma TomlListLosesQuotes(v: bytes)
    requires v != [] && v[0] == OPEN
    ensures QUOTE !in ListRead(Toml, v)
  {
    TomlItemsLoseQuotes(v[1..], false, false);
  }

  lemma ListLine(d: Dialect, table: map<bytes, Slot>, st: State, key: bytes, items: seq<bytes>)
    requires Word(key) && st.section != []
    requires FullName(st.section, key) in table && table[FullName(st.section, key)].kind == KList
    ensures var v := TrimRight(StripComment(LiteralText(AList(items)), false));
            && v != [] && v[0] == OPEN
            && Line(d, table, st, SettingText(d, key, LiteralText(AList(items)))) ==
               SetText(st, table[FullName(st.section, key)].field, ListRead(d, v))
  {
    hide Line, SettingText, StripComment, TrimRight, ParseArray, ParseText, SetText, QuotedItems;
    var w := LiteralText(AList(items));
    SettingIsApplied(d, table, st, key, w);
    ListBegins(items);
    TrimRightConcat([], StripComment(w, false));
  }

  lemma ListBegins(items: seq<bytes>)
    ensures var x := StripComment(LiteralText(AList(items)), false); x != [] && x[0] == OPEN
  {
    hide StripComment, QuotedItems;
    var rest := QuotedItems(items) + [CLOSE];
    assert [OPEN] + QuotedItems(items) + [CLOSE] == [OPEN] + rest;
    StripOne(OPEN, rest, false);
  }

  /** In TOML a list is what its field holds, joined with commas, just when there is something to hold, without a quote and
      without a zero octet, and room for it. Escapes are no concern. */
  lemma {:induction false} TomlListReadsBackExactly(table: map<bytes, Slot>, st: State, key: bytes, items: seq<bytes>)
    requires Word(key) && st.section != []
    requires FullName(st.section, key) in table && table[FullName(st.section, key)].kind == KList
    ensures GivesText(Line(Toml, table, st, SettingText(Toml, key, LiteralText(AList(items)))),
                      table[FullName(st.section, key)].field, Joined(items))
            <==> Joined(items) != [] && QUOTE !in Joined(items) && 0 !in Joined(items) && |st.owned| < OWNED_MAX
  {
    hide Line, SettingText, StripComment, TrimRight, SetText, GivesText, LiteralText, ListRead, QuotedItems;
    var field, v := table[FullName(st.section, key)].field, TrimRight(StripComment(LiteralText(AList(items)), false));
    ListLine(Toml, table, st, key, items);
    SetGives(st, field, ListRead(Toml, v), Joined(items));
    TomlListLosesQuotes(v);
    if items == [] {
      NoItems();
    } else {
      JoinedQuotes(items);
      if QuoteFree(items) {
        TomlListRead(items);
      }
    }
  }

  lemma NoItems()
    ensures ListRead(Toml, TrimRight(StripComment(LiteralText(AList([])), false))) == []
  {
    hide StripComment, TrimRight;
    var w: bytes := [OPEN, CLOSE];
    assert LiteralText(AList([])) == w;
    ScanPlain(w);
    TrimmedByLast(w);
    assert w[1..] == [CLOSE];
  }

  lemma TomlListRead(items: seq<bytes>)
    requires QuoteFree(items)
    ensures ListRead(Toml, TrimRight(StripComment(LiteralText(AList(items)), false))) == Joined(items)
  {
    hide StripComment, TrimRight, TomlItems, QuotedItems, Joined, QuoteFree, ListRead;
    ListScan(items);
    ListPlaces(QuotedItems(items));
    TomlItemsReadBack(items, false);
    assert [] + Joined(items) == Joined(items);
    TomlArrayRead(LiteralText(AList(items)));
  }

  lemma TomlArrayRead(w: bytes)
    requires |w| >= 2 && w[0] == OPEN && w[|w| - 1] == CLOSE
    ensures ListRead(Toml, w) == TomlItems(w[1..], false, false)
  {
    hide TomlItems;
  }

  // ---------------------------------------------------------------- lists in YAML

  function YamlJoined(items: seq<bytes>, wroteAny: bool): bytes { JoinItems(Enquoted(items), wroteAny) }

  lemma YamlJoinedStep(items: seq<bytes>, wroteAny: bool)
    requires items != []
    ensures var r := UnescapeFrom(items[0] + [QUOTE]);
            |YamlJoined(items, wroteAny)| ==
            if r == [] then |YamlJoined(items[1..], wroteAny)|
            else (if wroteAny then 1 else 0) + |r| + |YamlJoined(items[1..], true)|
  {
    hide JoinItems, ParseText, UnescapeFrom;
    var quoted := Enquoted(items);
    assert quoted[0] == [QUOTE] + items[0] + [QUOTE] && quoted[1..] == Enquoted(items[1..]);
    QuotedItemText(items[0]);
    JoinStep(quoted, wroteAny);
  }

  lemma JoinedLength(items: seq<bytes>)
    requires items != []
    ensures |Joined(items)| == |items[0]| + if |items| == 1 then 0 else 1 + |Joined(items[1..])|
  {
  }

  lemma FirstKept(items: seq<bytes>)
    requires items != []
    ensures KeptItems(items) <==> items[0] != [] && Unescaped(items[0]) && (|items| == 1 || KeptItems(items[1..]))
  {
    hide Unescaped;
    if items[0] != [] && Unescaped(items[0]) && (|items| == 1 || KeptItems(items[1..])) {
      forall i | 0 <= i < |items| ensures items[i] != [] && Unescaped(items[i]) {
        if i > 0 {
          assert items[1..][i - 1] == items[i];
        }
      }
    }
  }

  /** A joined list is never longer than its items, and as long only if YAML keeps every one of them. */
  lemma {:induction false} YamlJoinedLength(items: seq<bytes>, wroteAny: bool)
    requires items != []
    ensures |YamlJoined(items, wroteAny)| <= |Joined(items)| + if wroteAny then 1 else 0
    ensures |YamlJoined(items, wroteAny)| == |Joined(items)| + (if wroteAny then 1 else 0) && (wroteAny || Joined(items) != [])
            ==> KeptItems(items)
    decreases |items|
  {
    hide Joined, JoinItems, YamlJoined, KeptItems, Unescaped, UnescapeFrom;
    YamlJoinedStep(items, wroteAny);
    UnescapeExactly(items[0]);
    JoinedLength(items);
    FirstKept(items);
    if |items| == 1 {
      NothingJoined(items[1..], wroteAny);
      NothingJoined(items[1..], true);
    } else {
      YamlJoinedLength(items[1..], wroteAny);
      YamlJoinedLength(items[1..], true);
    }
  }

  lemma NothingJoined(items: seq<bytes>, wroteAny: bool)
    requires items == []
    ensures YamlJoined(items, wroteAny) == []
  {
  }

  /** In YAML a list of items without quotes is what its field holds just when no item is empty, none holds an escape or a
      zero octet, and there is room for it. */
  lemma {:induction false} YamlListReadsBackExactly(table: map<bytes, Slot>, st: State, key: bytes, items: seq<bytes>)
    requires Word(key) && st.section != [] && QuoteFree(items)
    requires FullName(st.section, key) in table && table[FullName(st.section, key)].kind == KList
    ensures GivesText(Line(Yaml, table, st, SettingText(Yaml, key, LiteralText(AList(items)))),
                      table[FullName(st.section, key)].field, Joined(items))
            <==> KeptItems(items) && 0 !in Joined(items) && |st.owned| < OWNED_MAX
  {
    hide Line, SettingText, StripComment, TrimRight, SetText, GivesText, LiteralText, ListRead, Joined, KeptItems;
    hide YamlJoined;
    var w, field := LiteralText(AList(items)), table[FullName(st.section, key)].field;
    ListLine(Yaml, table, st, key, items);
    YamlListRead(items);
    var read := ListRead(Yaml, w);
    SetGives(st, field, read, Joined(items));
    YamlJoinedLength(items, false);
    if KeptItems(items) {
      YamlKept(items);
    } else if YamlJoined(items, false) == [] {
      JoinedQuotes(items);
      WholeListIsOther(items);
    }
  }

  lemma YamlKept(items: seq<bytes>)
    requires KeptItems(items)
    ensures YamlJoined(items, false) == Joined(items) != []
  {
    JoinReadsBack(items, false);
    assert [] + Joined(items) == Joined(items);
    assert items[0] != [];
  }

  lemma YamlListRead(items: seq<bytes>)
    requires QuoteFree(items)
    ensures var w := LiteralText(AList(items));
            && TrimRight(StripComment(w, false)) == w
            && ListRead(Yaml, w) == if YamlJoined(items, false) == [] then w else YamlJoined(items, false)
  {
    hide StripComment, TrimRight, FlowItems, JoinItems, QuotedItems;
    ListScan(items);
    ListPlaces(QuotedItems(items));
    FlowItemsReadBack(items);
  }

  lemma WholeListIsOther(items: seq<bytes>)
    requires items != [] && QUOTE !in Joined(items)
    ensures CString(LiteralText(AList(items))) != Joined(items)
  {
    var w := LiteralText(AList(items));
    assert w[0] == OPEN && w[1] == QUOTE;
    hide QuotedItems, LiteralText;
    assert IndexOf(w, 0) >= 2 by { NotFirst(w); }
    assert CString(w)[1] == QUOTE;
  }

  lemma NotFirst(w: bytes)
    requires |w| >= 2 && w[0] != 0 && w[1] != 0
    ensures IndexOf(w, 0) >= 2
  {
  }

  // ---------------------------------------------------------------- bare texts in YAML

  lemma {:induction false} TrimRightBehind(a: bytes, y: bytes)
    requires a != [] && !IsSpace(a[|a| - 1])
    ensures TrimRight(a + y) == a + TrimRight(y)
    decreases |y|
  {
    if y == [] {
      assert a + y == a && a + TrimRight(y) == a;
      TrimmedByLast(a);
    } else {
      assert (a + y)[|a + y| - 1] == y[|y| - 1] && (a + y)[..|a + y| - 1] == a + y[..|y| - 1];
      TrimRightBehind(a, y[..|y| - 1]);
    }
  }

  lemma {:induction false} TrimRightFront(c: byte, y: bytes)
    ensures TrimRight([c] + y) == if TrimRight(y) == [] && IsSpace(c) then [] else [c] + TrimRight(y)
    decreases |y|
  {
    if y == [] {
      assert [c] + y == [c] && [c][..0] == [] && [c] + [] == [c];
    } else {
      assert ([c] + y)[|[c] + y| - 1] == y[|y| - 1] && ([c] + y)[..|[c] + y| - 1] == [c] + y[..|y| - 1];
      TrimRightFront(c, y[..|y| - 1]);
    }
  }

  /** Trimming the right end first makes no difference. */
  lemma {:induction false} TrimTwice(y: bytes)
    ensures Trim(TrimRight(y)) == Trim(y)
  {
    hide TrimRight, SkipSpaces;
    SkipStep(y);
    if y == [] {
      TrimNothing();
    } else {
      assert y == [y[0]] + y[1..];
      TrimRightFront(y[0], y[1..]);
      var t := TrimRight(y);
      SkipStep(t);
      if IsSpace(y[0]) {
        TrimTwice(y[1..]);
        if t != [] {
          assert t[1..] == TrimRight(y[1..]);
        } else {
          TrimNothing();
        }
      } else {
        TrimRightKeeps(y);
      }
    }
  }

  lemma TrimNothing()
    ensures TrimRight([]) == [] && SkipSpaces([]) == []
  {
  }

  /** A YAML setting line, whatever its value looks like. */
  lemma {:induction false} YamlLineOf(table: map<bytes, Slot>, st: State, key: bytes, w: bytes)
    requires Word(key) && st.section != []
    ensures var v := Trim(StripComment(w, false));
            Line(Yaml, table, st, SettingText(Yaml, key, w)) ==
            if v == [] then None else ApplySetting(Yaml, table, st, FullName(st.section, key), v)
  {
    hide StripComment, TrimRight, SkipSpaces, Trim, Indent, IndexOf, ApplySetting, SettingText;
    var x := StripComment(w, false);
    ScanSetting(Yaml, key, w);
    SettingPlaces(key, x);
    YamlValue(key, x);
    assert key + Between(Yaml) + x == key + [COLON] + ([SPACE] + x);
  }

  lemma YamlValue(key: bytes, x: bytes)
    requires Word(key)
    ensures var content := Trim(key + [COLON] + ([SPACE] + x));
            && content != [] && IndexOf(content, COLON) == |key| < |content|
            && Trim(content[..|key|]) == key && Trim(content[|key| + 1..]) == Trim(x)
  {
    hide TrimRight, SkipSpaces, IndexOf;
    WordEnds(key);
    var front, y := key + [COLON], [SPACE] + x;
    SkipStep(front + y);
    TrimRightBehind(front, y);
    FoundBehind(key, COLON, TrimRight(y));
    TrimTwice(y);
    SkipStep(y);
    assert y[1..] == x;
  }

  lemma ParseTextLength(v: bytes)
    ensures var r := ParseText(Yaml, v);
            && |r| <= |v| && (|r| == |v| <==> !Enclosed(v, QUOTE, QUOTE) && !Enclosed(v, APOSTROPHE, APOSTROPHE))
            && (|r| == |v| ==> r == v)
  {
    hide UnescapeFrom, UndoubleFrom;
    if |v| >= 1 {
      UnescapeShrinks(v[1..]);
      UndoubleShrinks(v[1..]);
    }
  }

  lemma {:induction false} UnescapeShrinks(body: bytes)
    ensures |UnescapeFrom(body)| <= if body == [] then 0 else |body| - 1
    decreases |body|
  {
    if |body| > 1 {
      UnescapeShrinks(body[1..]);
      UnescapeShrinks(body[2..]);
    }
  }

  lemma {:induction false} UndoubleShrinks(body: bytes)
    ensures |UndoubleFrom(body)| <= if body == [] then 0 else |body| - 1
    decreases |body|
  {
    if |body| > 1 {
      UndoubleShrinks(body[1..]);
      UndoubleShrinks(body[2..]);
    }
  }

  /** Comment scan and trimming only take away. */
  lemma Shortened(s: bytes)
    ensures var v := Trim(StripComment(s, false));
            |v| <= |s| && (|v| == |s| ==> v == s)
  {
    StripIsPrefix(s, false);
    var x := StripComment(s, false);
    hide StripComment;
    SkipShrinks(x);
    hide SkipSpaces;
    assert TrimRight(SkipSpaces(x)) <= SkipSpaces(x);
  }

  lemma {:induction false} StripIsPrefix(s: bytes, inQuotes: bool)
    ensures StripComment(s, inQuotes) <= s
  {
    if s != [] {
      StripIsPrefix(s[1..], if s[0] == QUOTE then !inQuotes else inQuotes);
      assert s == [s[0]] + s[1..];
    }
  }

  lemma {:induction false} SkipShrinks(s: bytes)
    ensures |SkipSpaces(s)| <= |s| && (|SkipSpaces(s)| == |s| ==> SkipSpaces(s) == s)
  {
    if s != [] {
      SkipShrinks(s[1..]);
    }
  }

  lemma TrimmedExactly(s: bytes)
    ensures Trim(s) == s <==> s == [] || (!IsSpace(s[0]) && !IsSpace(s[|s| - 1]))
  {
    SkipShrinks(s);
    if s != [] && IsSpace(s[0]) {
      SkipShrinks(s[1..]);
      hide SkipSpaces;
      assert TrimRight(SkipSpaces(s)) <= SkipSpaces(s);
    }
  }

  /** A text in YAML without any quotes around it: neither end is a space, the ends are not a pair of quotes or apostrophes,
      and every number sign has an odd number of quotes before it. */
  ghost predicate Bare(s: bytes)
  {
    && s != [] && !IsSpace(s[0]) && !IsSpace(s[|s| - 1])
    && !Enclosed(s, QUOTE, QUOTE) && !Enclosed(s, APOSTROPHE, APOSTROPHE) && SafeUnquoted(s)
  }

  /** Just those texts read back when they are written as they are, without a zero octet and with room for them. */
  lemma {:induction false} BareReadsBackExactly(table: map<bytes, Slot>, st: State, key: bytes, s: bytes)
    requires Word(key) && st.section != []
    requires FullName(st.section, key) in table && table[FullName(st.section, key)].kind == KText
    ensures GivesText(Line(Yaml, table, st, SettingText(Yaml, key, s)), table[FullName(st.section, key)].field, s)
            <==> Bare(s) && 0 !in s && |st.owned| < OWNED_MAX
  {
    hide Line, SettingText, StripComment, Trim, ParseText, SafeUnquoted, SafeFrom, GivesText, SetText, CString, IsSpace, Enclosed;
    var x, field := StripComment(s, false), table[FullName(st.section, key)].field;
    var v := Trim(x);
    var read := ParseText(Yaml, v);
    YamlLineOf(table, st, key, s);
    SetGives(st, field, read, s);
    Shortened(s);
    ParseTextLength(v);
    CStringShortens(read);
    SafeUnquotedIs(s);
    StripSafe(s, false);
    TrimmedExactly(s);
    NoneGiven(field, s);
    if v == s {
      SameStrip(s);
    }
  }

  lemma SafeUnquotedIs(s: bytes)
    ensures SafeUnquoted(s) <==> SafeFrom(s, false)
  {
    SafeFromIs(s, false);
  }

  lemma NoneGiven(field: nat, s: bytes)
    ensures !GivesText(None, field, s)
  {
  }

  lemma CStringShortens(s: bytes)
    ensures |CString(s)| <= |s|
  {
  }

  /** A text that scan and trimming leave whole was left whole by each. */
  lemma SameStrip(s: bytes)
    requires Trim(StripComment(s, false)) == s
    ensures StripComment(s, false) == s
  {
    StripIsPrefix(s, false);
    var x := StripComment(s, false);
    hide StripComment;
    SkipShrinks(x);
    hide SkipSpaces;
    assert TrimRight(SkipSpaces(x)) <= SkipSpaces(x);
  }
}
