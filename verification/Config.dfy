/** Reading settings from the two dialects of configuration file, line by line. */
module Config {
  import opened Bytes
  import opened CText
  import opened Outcome

  const QUOTE: byte := 34
  const HASH: byte := 35
  const APOSTROPHE: byte := 39
  const COMMA: byte := 44
  const COLON: byte := 58
  const EQUALS: byte := 61
  const OPEN: byte := 91
  const BACKSLASH: byte := 92
  const CLOSE: byte := 93
  const NEWLINE: byte := 10
  const TAB: byte := 9
  const DOT: byte := 46

  const OWNED_MAX := 64

  datatype Dialect = Toml | Yaml

  // ---------------------------------------------------------------- lines

  function TrimRight(s: bytes): (r: bytes)
    ensures r <= s && (r != [] ==> !IsSpace(r[|r| - 1]))
  {
    if s != [] && IsSpace(s[|s| - 1]) then TrimRight(s[..|s| - 1]) else s
  }

  function Trim(s: bytes): bytes { TrimRight(SkipSpaces(s)) }

  /** The text up to the first number sign that is not behind an odd number of quotes. */
  function StripComment(s: bytes, inQuotes: bool): bytes
  {
    if s == [] || (s[0] == HASH && !inQuotes) then []
    else [s[0]] + StripComment(s[1..], if s[0] == QUOTE then !inQuotes else inQuotes)
  }

  // ---------------------------------------------------------------- values

  /** A quoted text without its quotes: `body` is what is left of it, including the closing quote. */
  function UnescapeFrom(body: bytes): bytes
    decreases |body|
  {
    if |body| <= 1 then []
    else if body[0] == BACKSLASH && |body| > 2 then
      [if body[1] == 110 then NEWLINE else if body[1] == 116 then TAB else body[1]] + UnescapeFrom(body[2..])
    else [body[0]] + UnescapeFrom(body[1..])
  }

  function Unescape(v: bytes): bytes { if v == [] then [] else UnescapeFrom(v[1..]) }

  predicate Enclosed(v: bytes, first: byte, last: byte) { |v| >= 2 && v[0] == first && v[|v| - 1] == last }

  /** Within apostrophes a doubled one stands for one. */
  function UndoubleFrom(body: bytes): bytes
    decreases |body|
  {
    if |body| <= 1 then []
    else if body[0] == APOSTROPHE && |body| > 2 && body[1] == APOSTROPHE then [APOSTROPHE] + UndoubleFrom(body[2..])
    else [body[0]] + UndoubleFrom(body[1..])
  }

  /** The text a value stands for; nothing if it is not a text in this dialect. */
  function ParseText(d: Dialect, v: bytes): bytes
  {
    if Enclosed(v, QUOTE, QUOTE) then Unescape(v)
    else if d == Toml then []
    else if Enclosed(v, APOSTROPHE, APOSTROPHE) then UndoubleFrom(v[1..])
    else v
  }

  /** The quoted parts of an array, joined with commas. */
  function TomlItems(body: bytes, inText: bool, wroteAny: bool): bytes
    decreases |body|
  {
    if |body| <= 1 then []
    else if body[0] == QUOTE then
      if inText then TomlItems(body[1..], false, wroteAny)
      else (if wroteAny then [COMMA] else []) + TomlItems(body[1..], true, true)
    else (if inText then [body[0]] else []) + TomlItems(body[1..], inText, wroteAny)
  }

  /** The pieces between commas that are not inside quotes, trimmed; the last is dropped when it is empty. */
  function FlowItems(v: bytes, cur: bytes, inDouble: bool, inSingle: bool): seq<bytes>
  {
    if v == [] then if Trim(cur) == [] then [] else [Trim(cur)]
    else
      var inD := if v[0] == QUOTE && !inSingle then !inDouble else inDouble;
      var inS := if v[0] == APOSTROPHE && !inD then !inSingle else inSingle;
      if v[0] == COMMA && !inD && !inS then [Trim(cur)] + FlowItems(v[1..], [], inD, inS)
      else FlowItems(v[1..], cur + [v[0]], inD, inS)
  }

  function JoinItems(items: seq<bytes>, wroteAny: bool): bytes
  {
    if items == [] then []
    else
      var parsed := ParseText(Yaml, items[0]);
      if items[0] == [] || parsed == [] then JoinItems(items[1..], wroteAny)
      else (if wroteAny then [COMMA] else []) + parsed + JoinItems(items[1..], true)
  }

  /** The items of an array joined with commas; nothing if it is not an array. */
  function ParseArray(d: Dialect, v: bytes): bytes
  {
    if !Enclosed(v, OPEN, CLOSE) then []
    else if d == Toml then TomlItems(v[1..], false, false)
    else JoinItems(FlowItems(v[1..|v| - 1], [], false, false), false)
  }

  // ---------------------------------------------------------------- settings

  datatype Kind = KText | KInteger | KPort | KPositive | KFlag | KList

  /** Where a setting goes. Two settings may go to the same field. */
  datatype Slot = Slot(field: nat, kind: Kind)

  /** A text is held as its place among the texts the loader owns, or as nothing. */
  datatype Value = Text(at: Option<nat>) | Number(n: int) | Flag(b: bool)

  datatype State = State(section: bytes, config: map<nat, Value>, owned: seq<bytes>)

  function TrueText(): bytes { [116, 114, 117, 101] }

  function FalseText(): bytes { [102, 97, 108, 115, 101] }

  /** The loader has room for 64 texts and never moves them. A text beyond those is not kept. */
  function Own(st: State, s: bytes): (State, Value)
  {
    if s == [] || |st.owned| >= OWNED_MAX then (st, Text(None))
    else (st.(owned := st.owned + [s]), Text(Some(|st.owned|)))
  }

  function SetField(st: State, field: nat, v: Value): State { st.(config := st.config[field := v]) }

  function SetText(st: State, field: nat, s: bytes): Option<State>
  {
    if s == [] then None
    else
      var (next, v) := Own(st, s);
      Some(SetField(next, field, v))
  }

  /** A number that does not fit 64 bits becomes the nearest that does. */
  function Clamp(n: int): int
  {
    if n < -0x8000_0000_0000_0000 then -0x8000_0000_0000_0000
    else if n > 0x7fff_ffff_ffff_ffff then 0x7fff_ffff_ffff_ffff
    else n
  }

  function SetNumber(st: State, slot: Slot, parsed: Option<int>): Option<State>
  {
    match parsed
    case None => None
    case Some(m) =>
      var n := Clamp(m);
      match slot.kind
      case KPort => if 0 <= n <= 65535 then Some(SetField(st, slot.field, Number(n))) else None
      case KPositive => if n > 0 then Some(SetField(st, slot.field, Number(n % 0x1_0000_0000))) else None
      case _ => Some(SetField(st, slot.field, Number(n)))
  }

  /** One setting: looked up by its full name and read as its kind demands. */
  function ApplySetting(d: Dialect, table: map<bytes, Slot>, st: State, full: bytes, val: bytes): Option<State>
  {
    if full !in table then None
    else
      var slot := table[full];
      match slot.kind
      case KText => SetText(st, slot.field, ParseText(d, val))
      case KList =>
        var joined := ParseArray(d, val);
        SetText(st, slot.field, if joined == [] then ParseText(d, val) else joined)
      case KFlag =>
        if CString(val) == TrueText() then Some(SetField(st, slot.field, Flag(true)))
        else if CString(val) == FalseText() then Some(SetField(st, slot.field, Flag(false)))
        else None
      case _ => SetNumber(st, slot, ParseInteger(CString(val)))
  }

  function FullName(section: bytes, key: bytes): bytes { if section == [] then key else section + [DOT] + key }

  function SettingLine(d: Dialect, table: map<bytes, Slot>, st: State, s: bytes, mark: byte): Option<State>
  {
    var at := IndexOf(s, mark);
    if at == |s| then None
    else
      var key, val := Trim(s[..at]), Trim(s[at + 1..]);
      if key == [] || val == [] then None else ApplySetting(d, table, st, FullName(st.section, key), val)
  }

  /** A header in brackets names the section, anything else is a setting. */
  function TomlLine(table: map<bytes, Slot>, st: State, line: bytes): Option<State>
  {
    var s := Trim(StripComment(line, false));
    if s == [] then Some(st)
    else if s[0] == OPEN then
      var close := IndexOf(s, CLOSE);
      if close == |s| then None else Some(st.(section := Trim(s[1..close])))
    else SettingLine(Toml, table, st, s, EQUALS)
  }

  function Indent(s: bytes): (n: nat)
    ensures n <= |s|
  {
    if s != [] && (s[0] == SPACE || s[0] == TAB) then 1 + Indent(s[1..]) else 0
  }

  /** A header is not indented, a setting is indented by two spaces, and a tab is never allowed. */
  function YamlLine(table: map<bytes, Slot>, st: State, raw: bytes): Option<State>
  {
    var line := StripComment(raw, false);
    if Trim(line) == [] then Some(st)
    else
      var indent := Indent(line);
      if TAB in line[..indent] then None
      else
        var content := Trim(line[indent..]);
        if indent == 0 then
          var colon := IndexOf(content, COLON);
          if colon == |content| then None
          else
            var key, rest := Trim(content[..colon]), Trim(content[colon + 1..]);
            if key == [] || rest != [] then None else Some(st.(section := key))
        else if indent != 2 || st.section == [] then None
        else SettingLine(Yaml, table, st, content, COLON)
  }

  function Line(d: Dialect, table: map<bytes, Slot>, st: State, line: bytes): Option<State>
  {
    if d == Toml then TomlLine(table, st, line) else YamlLine(table, st, line)
  }

  /** Line by line, up to the first that is refused. */
  function Load(d: Dialect, table: map<bytes, Slot>, st: State, lines: seq<bytes>): Option<State>
    decreases |lines|
  {
    if lines == [] then Some(st)
    else
      match Line(d, table, st, lines[0])
      case None => None
      case Some(next) => Load(d, table, next, lines[1..])
  }

  // ---------------------------------------------------------------- the loops

  method TrimLoop(s: bytes) returns (r: bytes)
    ensures r == Trim(s)
  {
    hide SkipSpaces, TrimRight, IsSpace;
    var start := 0;
    assert s[0..] == s;
    while start < |s| && IsSpace(s[start])
      invariant start <= |s| && SkipSpaces(s) == SkipSpaces(s[start..])
    {
      SkipStep(s[start..]);
      assert s[start..][1..] == s[start + 1..];
      start := start + 1;
    }
    SkipStep(s[start..]);
    if start >= |s| {
      TrimStep([]);
      return [];
    }
    var end := |s|;
    assert s[start..end] == s[start..];
    while end > start && IsSpace(s[end - 1])
      invariant start <= end <= |s| && TrimRight(s[start..]) == TrimRight(s[start..end])
    {
      TrimStep(s[start..end]);
      assert s[start..end][..end - start - 1] == s[start..end - 1];
      end := end - 1;
    }
    TrimStep(s[start..end]);
    return s[start..end];
  }

  lemma SkipStep(s: bytes)
    ensures SkipSpaces(s) == if s != [] && IsSpace(s[0]) then SkipSpaces(s[1..]) else s
  {
  }

  lemma TrimStep(s: bytes)
    ensures TrimRight(s) == if s != [] && IsSpace(s[|s| - 1]) then TrimRight(s[..|s| - 1]) else s
  {
  }

  method StripLoop(s: bytes) returns (r: bytes)
    ensures r == StripComment(s, false)
  {
    var inQuotes := false;
    var i := 0;
    while i < |s|
      invariant i <= |s| && StripComment(s, false) == s[..i] + StripComment(s[i..], inQuotes)
    {
      if s[i] == QUOTE {
        inQuotes := !inQuotes;
      } else if s[i] == HASH && !inQuotes {
        return s[..i];
      }
      assert s[i..][1..] == s[i + 1..] && s[..i] + [s[i]] == s[..i + 1];
      i := i + 1;
    }
    return s;
  }

  method UnescapeLoop(v: bytes) returns (out: bytes)
    ensures out == Unescape(v)
  {
    hide UnescapeFrom;
    out := [];
    var i := 1;
    while i + 1 < |v|
      invariant i >= 1 && (v == [] || i <= |v|)
      invariant v != [] ==> UnescapeFrom(v[1..]) == out + UnescapeFrom(v[i..])
      invariant v == [] ==> out == []
    {
      ghost var body := v[i..];
      UnescapeStep(body);
      assert body[0] == v[i] && body[1] == v[i + 1] && body[1..] == v[i + 1..] && body[2..] == v[i + 2..];
      if v[i] == BACKSLASH && i + 2 < |v| {
        i := i + 1;
        if v[i] == 110 {
          out := out + [NEWLINE];
        } else if v[i] == 116 {
          out := out + [TAB];
        } else {
          out := out + [v[i]];
        }
      } else {
        out := out + [v[i]];
      }
      i := i + 1;
    }
    if v != [] {
      UnescapeEnds(v[i..]);
    }
  }

  lemma UnescapeStep(body: bytes)
    requires |body| >= 2
    ensures UnescapeFrom(body) ==
            if body[0] == BACKSLASH && |body| > 2 then
              [if body[1] == 110 then NEWLINE else if body[1] == 116 then TAB else body[1]] + UnescapeFrom(body[2..])
            else [body[0]] + UnescapeFrom(body[1..])
  {
  }

  lemma UnescapeEnds(body: bytes)
    requires |body| <= 1
    ensures UnescapeFrom(body) == []
  {
  }

  method TomlItemsLoop(v: bytes) returns (out: bytes)
    ensures out == if Enclosed(v, OPEN, CLOSE) then TomlItems(v[1..], false, false) else []
  {
    hide TomlItems;
    out := [];
    if |v| < 2 || v[0] != OPEN || v[|v| - 1] != CLOSE {
      return;
    }
    var inText, wroteAny := false, false;
    var i := 1;
    while i + 1 < |v|
      invariant 1 <= i < |v| && TomlItems(v[1..], false, false) == out + TomlItems(v[i..], inText, wroteAny)
    {
      TomlItemsStep(v[i..], inText, wroteAny);
      assert v[i..][0] == v[i] && v[i..][1..] == v[i + 1..];
      ghost var rest := v[i + 1..];
      Regroup(out, [v[i]], TomlItems(rest, inText, wroteAny));
      Regroup(out, [COMMA], TomlItems(rest, true, true));
      Regroup(out, [], TomlItems(rest, inText, wroteAny));
      if v[i] == QUOTE {
        if inText {
          inText := false;
        } else {
          inText := true;
          if wroteAny {
            out := out + [COMMA];
          }
          wroteAny := true;
        }
      } else if inText {
        out := out + [v[i]];
      }
      i := i + 1;
    }
    TomlItemsEnd(v[i..], inText, wroteAny);
  }

  lemma Regroup(a: bytes, b: bytes, c: bytes)
    ensures a + (b + c) == a + b + c
  {
  }

  lemma TomlItemsStep(body: bytes, inText: bool, wroteAny: bool)
    requires |body| >= 2
    ensures TomlItems(body, inText, wroteAny) ==
            if body[0] == QUOTE then
              if inText then TomlItems(body[1..], false, wroteAny)
              else (if wroteAny then [COMMA] else []) + TomlItems(body[1..], true, true)
            else (if inText then [body[0]] else []) + TomlItems(body[1..], inText, wroteAny)
  {
  }

  lemma TomlItemsEnd(body: bytes, inText: bool, wroteAny: bool)
    requires |body| <= 1
    ensures TomlItems(body, inText, wroteAny) == []
  {
  }

  method SplitFlowItems(v: bytes) returns (items: seq<bytes>)
    ensures items == FlowItems(v, [], false, false)
  {
    hide FlowItems;
    items := [];
    var cur: bytes := [];
    var inDouble, inSingle := false, false;
    var i := 0;
    assert v[0..] == v;
    while i < |v|
      invariant i <= |v| && FlowItems(v, [], false, false) == items + FlowItems(v[i..], cur, inDouble, inSingle)
    {
      FlowItemsStep(v[i..], cur, inDouble, inSingle);
      assert v[i..][0] == v[i] && v[i..][1..] == v[i + 1..];
      if v[i] == QUOTE && !inSingle {
        inDouble := !inDouble;
      }
      if v[i] == APOSTROPHE && !inDouble {
        inSingle := !inSingle;
      }
      if v[i] == COMMA && !inDouble && !inSingle {
        var item := TrimLoop(cur);
        items := items + [item];
        cur := [];
      } else {
        cur := cur + [v[i]];
      }
      i := i + 1;
    }
    FlowItemsEnd(v[i..], cur, inDouble, inSingle);
    var last := TrimLoop(cur);
    if last != [] {
      items := items + [last];
    }
  }

  lemma FlowItemsStep(v: bytes, cur: bytes, inDouble: bool, inSingle: bool)
    requires v != []
    ensures var inD := if v[0] == QUOTE && !inSingle then !inDouble else inDouble;
            var inS := if v[0] == APOSTROPHE && !inD then !inSingle else inSingle;
            FlowItems(v, cur, inDouble, inSingle) ==
            if v[0] == COMMA && !inD && !inS then [Trim(cur)] + FlowItems(v[1..], [], inD, inS)
            else FlowItems(v[1..], cur + [v[0]], inD, inS)
  {
  }

  lemma FlowItemsEnd(v: bytes, cur: bytes, inDouble: bool, inSingle: bool)
    requires v == []
    ensures FlowItems(v, cur, inDouble, inSingle) == if Trim(cur) == [] then [] else [Trim(cur)]
  {
  }

  method IndentLoop(s: bytes) returns (n: nat, hasTab: bool)
    ensures n == Indent(s) && hasTab == (TAB in s[..n])
  {
    n, hasTab := 0, false;
    while n < |s| && (s[n] == TAB || s[n] == SPACE)
      invariant n <= |s| && Indent(s) == n + Indent(s[n..]) && hasTab == (TAB in s[..n])
    {
      assert s[n..][1..] == s[n + 1..] && s[..n + 1] == s[..n] + [s[n]];
      if s[n] == TAB {
        hasTab := true;
      }
      n := n + 1;
    }
  }

  method UndoubleLoop(v: bytes) returns (out: bytes)
    requires v != []
    ensures out == UndoubleFrom(v[1..])
  {
    hide UndoubleFrom;
    out := [];
    var i := 1;
    while i + 1 < |v|
      invariant 1 <= i <= |v| && UndoubleFrom(v[1..]) == out + UndoubleFrom(v[i..])
    {
      UndoubleStep(v[i..]);
      assert v[i..][0] == v[i] && v[i..][1] == v[i + 1] && v[i..][1..] == v[i + 1..] && v[i..][2..] == v[i + 2..];
      if v[i] == APOSTROPHE && i + 2 < |v| && v[i + 1] == APOSTROPHE {
        out := out + [APOSTROPHE];
        i := i + 1;
      } else {
        out := out + [v[i]];
      }
      i := i + 1;
    }
    UndoubleEnds(v[i..]);
  }

  lemma UndoubleStep(body: bytes)
    requires |body| >= 2
    ensures UndoubleFrom(body) ==
            if body[0] == APOSTROPHE && |body| > 2 && body[1] == APOSTROPHE then [APOSTROPHE] + UndoubleFrom(body[2..])
            else [body[0]] + UndoubleFrom(body[1..])
  {
  }

  lemma UndoubleEnds(body: bytes)
    requires |body| <= 1
    ensures UndoubleFrom(body) == []
  {
  }

  method ReadText(d: Dialect, v: bytes) returns (text: bytes)
    ensures text == ParseText(d, v)
  {
    if Enclosed(v, QUOTE, QUOTE) {
      text := UnescapeLoop(v);
    } else if d == Toml {
      text := [];
    } else if Enclosed(v, APOSTROPHE, APOSTROPHE) {
      text := UndoubleLoop(v);
    } else {
      text := v;
    }
  }

  method ReadFlowArray(v: bytes) returns (out: bytes)
    ensures out == if Enclosed(v, OPEN, CLOSE) then JoinItems(FlowItems(v[1..|v| - 1], [], false, false), false) else []
  {
    hide JoinItems, FlowItems, ParseText;
    out := [];
    if !Enclosed(v, OPEN, CLOSE) {
      return;
    }
    var items := SplitFlowItems(v[1..|v| - 1]);
    var wroteAny := false;
    var i := 0;
    assert items[0..] == items;
    while i < |items|
      invariant i <= |items| && JoinItems(items, false) == out + JoinItems(items[i..], wroteAny)
    {
      JoinStep(items[i..], wroteAny);
      assert items[i..][0] == items[i] && items[i..][1..] == items[i + 1..];
      if items[i] != [] {
        var parsed := ReadText(Yaml, items[i]);
        ghost var comma: bytes := if wroteAny then [COMMA] else [];
        Regroup(out, comma + parsed, JoinItems(items[i + 1..], true));
        Regroup(out, comma, parsed);
        if parsed != [] {
          if wroteAny {
            out := out + [COMMA];
          }
          out := out + parsed;
          wroteAny := true;
        }
      }
      i := i + 1;
    }
    JoinEnd(items[i..], wroteAny);
  }

  lemma JoinStep(items: seq<bytes>, wroteAny: bool)
    requires items != []
    ensures var parsed := ParseText(Yaml, items[0]);
            JoinItems(items, wroteAny) ==
            if items[0] == [] || parsed == [] then JoinItems(items[1..], wroteAny)
            else (if wroteAny then [COMMA] else []) + parsed + JoinItems(items[1..], true)
  {
  }

  lemma JoinEnd(items: seq<bytes>, wroteAny: bool)
    requires items == []
    ensures JoinItems(items, wroteAny) == []
  {
  }

  method ReadArray(d: Dialect, v: bytes) returns (joined: bytes)
    ensures joined == ParseArray(d, v)
  {
    hide TomlItems, FlowItems, JoinItems;
    if d == Toml {
      joined := TomlItemsLoop(v);
    } else {
      joined := ReadFlowArray(v);
    }
  }

  /** The lookup shared by both dialects. */
  method Apply(d: Dialect, table: map<bytes, Slot>, st: State, full: bytes, val: bytes) returns (r: Option<State>)
    ensures r == ApplySetting(d, table, st, full, val)
  {
    hide ParseText, ParseArray, SetText, SetNumber;
    if full !in table {
      return None;
    }
    var slot := table[full];
    match slot.kind {
      case KText =>
        var text := ReadText(d, val);
        r := SetText(st, slot.field, text);
      case KList =>
        var joined := ReadArray(d, val);
        if joined == [] {
          joined := ReadText(d, val);
        }
        r := SetText(st, slot.field, joined);
      case _ => r := ApplySetting(d, table, st, full, val);
    }
  }

  /** A key, a mark and a value. */
  method ReadSetting(d: Dialect, table: map<bytes, Slot>, st: State, s: bytes, mark: byte) returns (r: Option<State>)
    ensures r == SettingLine(d, table, st, s, mark)
  {
    hide Trim, ApplySetting;
    var at := IndexOf(s, mark);
    if at == |s| {
      return None;
    }
    var key := TrimLoop(s[..at]);
    var val := TrimLoop(s[at + 1..]);
    if key == [] || val == [] {
      return None;
    }
    r := Apply(d, table, st, FullName(st.section, key), val);
  }

  method ReadTomlLine(table: map<bytes, Slot>, st: State, raw: bytes) returns (r: Option<State>)
    ensures r == TomlLine(table, st, raw)
  {
    hide Trim, StripComment, SettingLine;
    var line := StripLoop(raw);
    var s := TrimLoop(line);
    if s == [] {
      return Some(st);
    }
    if s[0] == OPEN {
      var close := IndexOf(s, CLOSE);
      if close == |s| {
        return None;
      }
      var section := TrimLoop(s[1..close]);
      return Some(st.(section := section));
    }
    r := ReadSetting(Toml, table, st, s, EQUALS);
  }

  method ReadYamlLine(table: map<bytes, Slot>, st: State, raw: bytes) returns (r: Option<State>)
    ensures r == YamlLine(table, st, raw)
  {
    hide Trim, StripComment, SettingLine, Indent;
    var line := StripLoop(raw);
    var whole := TrimLoop(line);
    if whole == [] {
      return Some(st);
    }
    var indent, hasTab := IndentLoop(line);
    if hasTab {
      return None;
    }
    var content := TrimLoop(line[indent..]);
    if indent == 0 {
      var colon := IndexOf(content, COLON);
      if colon == |content| {
        return None;
      }
      var key := TrimLoop(content[..colon]);
      var rest := TrimLoop(content[colon + 1..]);
      if key == [] || rest != [] {
        return None;
      }
      return Some(st.(section := key));
    }
    if indent != 2 || st.section == [] {
      return None;
    }
    r := ReadSetting(Yaml, table, st, content, COLON);
  }

  /** The line loops of both dialects: the settings of all lines, or the number of the first line that is refused. */
  method LoadFile(d: Dialect, table: map<bytes, Slot>, config: map<nat, Value>, lines: seq<bytes>)
    returns (r: Result<State, nat>)
    ensures var whole := Load(d, table, State([], config, []), lines);
            && (r.Ok? <==> whole.Some?) && (r.Ok? ==> r.value == whole.value)
    ensures r.Err? ==> 1 <= r.error <= |lines|
    ensures r.Err? ==> Load(d, table, State([], config, []), lines[..r.error - 1]).Some?
    ensures r.Err? ==> Load(d, table, State([], config, []), lines[..r.error]).None?
  {
    hide TomlLine, YamlLine;
    var st := State([], config, []);
    ghost var start := st;
    var lineno := 0;
    while lineno < |lines|
      invariant lineno <= |lines| && Load(d, table, start, lines[..lineno]) == Some(st)
      invariant Load(d, table, start, lines) == Load(d, table, st, lines[lineno..])
    {
      var line := lines[lineno];
      lineno := lineno + 1;
      assert lines[lineno - 1..][1..] == lines[lineno..];
      LoadMore(d, table, start, lines[..lineno - 1], line);
      assert lines[..lineno] == lines[..lineno - 1] + [line];
      var next;
      if d == Toml {
        next := ReadTomlLine(table, st, line);
      } else {
        next := ReadYamlLine(table, st, line);
      }
      if next.None? {
        return Err(lineno);
      }
      st := next.value;
    }
    return Ok(st);
  }

  lemma {:induction false} LoadMore(d: Dialect, table: map<bytes, Slot>, st: State, lines: seq<bytes>, line: bytes)
    ensures Load(d, table, st, lines + [line]) ==
            match Load(d, table, st, lines) case None => None case Some(next) => Line(d, table, next, line)
    decreases |lines|
  {
    hide Line;
    if lines == [] {
      assert [line][1..] == [];
    } else {
      assert (lines + [line])[1..] == lines[1..] + [line];
      match Line(d, table, st, lines[0]) {
        case None =>
        case Some(next) => LoadMore(d, table, next, lines[1..], line);
      }
    }
  }
}
