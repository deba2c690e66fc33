/** Reading an XKB text keymap: which keysym names each key produces. */
module Keymap {
  import opened Bytes
  import opened XkbText

  const KEYCODE_OFFSET: nat := 8

  /** The names of numeric keysyms; a value that has none is absent. */
  type KeysymNames = map<nat, string>

  // ---- sections --------------------------------------------------------------------

  /** Where the brace closes that was opened, with others, before s. */
  function MatchingBrace(s: string, depth: nat): (r: Option<nat>)
    ensures r.Some? ==> r.value < |s|
  {
    if s == [] then None
    else if s[0] == '{' then Shift(1, MatchingBrace(s[1..], depth + 1))
    else if s[0] == '}' then if depth <= 1 then Some(0) else Shift(1, MatchingBrace(s[1..], depth - 1))
    else Shift(1, MatchingBrace(s[1..], depth))
  }

  /** The body, inside its braces, of the first section with that keyword; empty if there
      is none. */
  function SectionBody(text: string, keyword: string): string {
    var start := Index(text, keyword);
    if start.None? then []
    else
      var rest := text[start.value..];
      var open := IndexByte(rest, '{');
      if open.None? then []
      else
        var inner := rest[open.value + 1..];
        var end := MatchingBrace(inner, 1);
        if end.None? then [] else inner[..end.value]
  }

  /** The body of a section whose brace opens at `open`. */
  lemma SectionAt(text: string, keyword: string, start: nat, open: nat)
    requires Index(text, keyword) == Some(start) && IndexByte(text[start..], '{') == Some(open)
    ensures start + open < |text|
    ensures var inner := text[start + open + 1..];
      var end := MatchingBrace(inner, 1);
      SectionBody(text, keyword) == if end.None? then [] else inner[..end.value]
  {
    hide Index, IndexByte, MatchingBrace;
    assert text[start..][open + 1..] == text[start + open + 1..];
  }

  lemma BraceStep(s: string, depth: nat)
    requires s != []
    ensures MatchingBrace(s, depth)
         == if s[0] == '{' then Shift(1, MatchingBrace(s[1..], depth + 1))
            else if s[0] == '}' then if depth <= 1 then Some(0) else Shift(1, MatchingBrace(s[1..], depth - 1))
            else Shift(1, MatchingBrace(s[1..], depth))
  {
  }

  method ReadSection(text: string, keyword: string) returns (body: string)
    ensures body == SectionBody(text, keyword)
  {
    hide Index, IndexByte, MatchingBrace, SectionBody;
    var start := Index(text, keyword);
    if start.None? {
      assert SectionBody(text, keyword) == [] by { NoSection(text, keyword); }
      return "";
    }
    var open := IndexByte(text[start.value..], '{');
    if open.None? {
      assert SectionBody(text, keyword) == [] by { NoSection(text, keyword); }
      return "";
    }
    SectionAt(text, keyword, start.value, open.value);
    var at := start.value + open.value;
    ghost var inner := text[at + 1..];
    var depth := 1;
    for i := at + 1 to |text|
      invariant depth >= 1
      invariant MatchingBrace(inner, 1) == Shift(i - at - 1, MatchingBrace(text[i..], depth))
    {
      BraceStep(text[i..], depth);
      assert text[i..][1..] == text[i + 1..];
      if text[i] == '{' {
        depth := depth + 1;
      } else if text[i] == '}' {
        depth := depth - 1;
        if depth == 0 {
          assert inner[..i - at - 1] == text[at + 1..i];
          return text[at + 1..i];
        }
      }
    }
    assert MatchingBrace(text[|text|..], depth) == None by { NoBrace(depth); }
    return "";
  }

  lemma NoBrace(depth: nat)
    ensures MatchingBrace([], depth) == None
  {
  }

  lemma NoSection(text: string, keyword: string)
    requires Index(text, keyword).None? || IndexByte(text[Index(text, keyword).value..], '{').None?
    ensures SectionBody(text, keyword) == []
  {
    hide Index, IndexByte, MatchingBrace;
  }

  // ---- keycodes --------------------------------------------------------------------

  /** The key name and code of a "<AE01> = 10;" line. */
  function CodeLine(line: string): Option<(string, nat)> {
    var trimmed := Trim(line);
    if !("<" <= trimmed) then None
    else
      var close := IndexByte(trimmed, '>');
      if close.None? then None
      else
        var rest := Trim(trimmed[close.value + 1..]);
        if !("=" <= rest) then None
        else
          var end := IndexByte(rest[1..], ';');
          var number := if end.Some? then rest[1..][..end.value] else rest[1..];
          var code := ParseUint(Trim(number), 10);
          if code.None? then None else Some((trimmed[..close.value + 1], code.value))
  }

  function Codes(lines: seq<string>): map<string, nat> {
    if lines == [] then map[]
    else
      var before, last := Codes(lines[..|lines| - 1]), CodeLine(lines[|lines| - 1]);
      if last.None? then before else before[last.value.0 := last.value.1]
  }

  method ParseKeycodes(body: string) returns (codes: map<string, nat>)
    ensures codes == Codes(Split(body, '\n'))
  {
    codes := map[];
    var lines := Split(body, '\n');
    for i := 0 to |lines|
      invariant codes == Codes(lines[..i])
    {
      assert lines[..i + 1][..i] == lines[..i];
      var entry := CodeLine(lines[i]);
      if entry.Some? {
        codes := codes[entry.value.0 := entry.value.1];
      }
    }
    assert lines[..|lines|] == lines;
  }

  // ---- statements ------------------------------------------------------------------

  /** How the text scanned so far leaves the scanner: how deep in brackets, and whether
      inside quotes. */
  datatype Scanner = Scanner(depth: int, quoted: bool)

  predicate Cuts(s: Scanner, c: char) {
    c == ';' && !s.quoted && s.depth <= 0
  }

  function Advance(s: Scanner, c: char): Scanner {
    if c == '"' then s.(quoted := !s.quoted)
    else if s.quoted then s
    else if c == '{' || c == '[' then s.(depth := s.depth + 1)
    else if c == '}' || c == ']' then s.(depth := s.depth - 1)
    else s
  }

  /** The statements of text, from a state of the scanner on. */
  function Statements(s: string, at: Scanner): (r: seq<string>)
    ensures |r| >= 1
  {
    if s == [] then [[]]
    else
      var rest := Statements(s[1..], Advance(at, s[0]));
      if Cuts(at, s[0]) then [[]] + rest else [[s[0]] + rest[0]] + rest[1..]
  }

  const TOP: Scanner := Scanner(0, false)

  /** Pieces with text put before the first. */
  function Prepend(p: string, pieces: seq<string>): seq<string>
    requires |pieces| >= 1
  {
    [p + pieces[0]] + pieces[1..]
  }

  lemma StatementsStep(s: string, at: Scanner, p: string)
    requires s != []
    ensures var rest := Statements(s[1..], Advance(at, s[0]));
      Prepend(p, Statements(s, at)) == if Cuts(at, s[0]) then [p] + rest else Prepend(p + [s[0]], rest)
  {
    hide Cuts, Advance;
    var rest := Statements(s[1..], Advance(at, s[0]));
    if Cuts(at, s[0]) {
      assert p + [] == p;
    } else {
      assert p + ([s[0]] + rest[0]) == p + [s[0]] + rest[0];
    }
  }

  method SplitStatements(body: string) returns (statements: seq<string>)
    ensures statements == Statements(body, TOP)
  {
    hide Statements, Prepend;
    statements := [];
    var depth, quoted, start := 0, false, 0;
    assert body[0..] == body;
    PrependNothing(Statements(body, TOP));
    for i := 0 to |body|
      invariant 0 <= start <= i
      invariant Statements(body, TOP) == statements + Prepend(body[start..i], Statements(body[i..], Scanner(depth, quoted)))
    {
      var c := body[i];
      StatementsStep(body[i..], Scanner(depth, quoted), body[start..i]);
      assert body[i..][1..] == body[i + 1..];
      assert body[start..i + 1] == body[start..i] + [c];
      if c == '"' {
        quoted := !quoted;
      } else if quoted {
      } else if c == '{' || c == '[' {
        depth := depth + 1;
      } else if c == '}' || c == ']' {
        depth := depth - 1;
      } else if c == ';' && depth <= 0 {
        statements := statements + [body[start..i]];
        start := i + 1;
        assert body[i + 1..i + 1] == [];
        PrependNothing(Statements(body[i + 1..], Scanner(depth, quoted)));
      }
    }
    NoStatements(body[start..], Scanner(depth, quoted));
    assert body[start..|body|] == body[start..];
    statements := statements + [body[start..]];
  }

  lemma PrependNothing(pieces: seq<string>)
    requires |pieces| >= 1
    ensures Prepend([], pieces) == pieces
  {
    assert [] + pieces[0] == pieces[0];
  }

  lemma NoStatements(p: string, at: Scanner)
    ensures Prepend(p, Statements([], at)) == [p]
  {
    assert p + [] == p;
  }

  /** The state of the scanner after some text. */
  function Scan(s: string, at: Scanner): Scanner {
    if s == [] then at else Scan(s[1..], Advance(at, s[0]))
  }

  lemma {:induction false} ScanAppend(a: string, b: string, at: Scanner)
    ensures Scan(a + b, at) == Scan(b, Scan(a, at))
  {
    if a == [] {
      assert a + b == b;
    } else {
      assert (a + b)[1..] == a[1..] + b;
      ScanAppend(a[1..], b, Advance(at, a[0]));
    }
  }

  /** Statements joined by semicolons give back the text. */
  lemma {:induction false} JoinStatements(s: string, at: Scanner)
    ensures Join(Statements(s, at), ";") == s
  {
    if s == [] {
    } else {
      var rest := Statements(s[1..], Advance(at, s[0]));
      JoinStatements(s[1..], Advance(at, s[0]));
      if Cuts(at, s[0]) {
        assert ([[]] + rest)[1..] == rest;
        assert [] + ";" + Join(rest, ";") == s;
      } else {
        var all := [[s[0]] + rest[0]] + rest[1..];
        assert all[1..] == rest[1..];
        assert Join(all, ";") == [s[0]] + Join(rest, ";");
      }
    }
  }

  /** Whether place i of the joined pieces is a separator. */
  predicate IsSeparator(pieces: seq<string>, i: int) {
    && |pieces| > 1
    && (i == |pieces[0]| || (i > |pieces[0]| && IsSeparator(pieces[1..], i - |pieces[0]| - 1)))
  }

  /** The text is cut at the semicolons outside quotes and brackets, and nowhere else. */
  lemma {:induction false} CutsExactly(s: string, at: Scanner, i: nat)
    ensures IsSeparator(Statements(s, at), i) <==> i < |s| && Cuts(Scan(s[..i], at), s[i])
  {
    if s == [] {
    } else {
      var next := Advance(at, s[0]);
      var rest := Statements(s[1..], next);
      if i > 0 {
        CutsExactly(s[1..], next, i - 1);
        if i < |s| {
          assert s[..i][1..] == s[1..][..i - 1] && s[..i][0] == s[0];
        }
      } else {
        assert s[..0] == [];
      }
      if Cuts(at, s[0]) {
        assert ([[]] + rest)[1..] == rest;
      } else {
        assert ([[s[0]] + rest[0]] + rest[1..])[1..] == rest[1..];
      }
    }
  }

  /** The quotes in a text. */
  function Quotes(s: string): nat {
    if s == [] then 0 else Quotes(s[..|s| - 1]) + if s[|s| - 1] == '"' then 1 else 0
  }

  /** How many more brackets it opens than it closes, outside quotes. */
  function Open(s: string): int {
    if s == [] then 0
    else
      var c := s[|s| - 1];
      Open(s[..|s| - 1]) +
        if Quotes(s[..|s| - 1]) % 2 != 0 then 0
        else if c in "{[" then 1 else if c in "}]" then -1 else 0
  }

  lemma {:induction false} ScanCounts(s: string)
    ensures Scan(s, TOP) == Scanner(Open(s), Quotes(s) % 2 != 0)
  {
    if s == [] {
    } else {
      var front, c := s[..|s| - 1], s[|s| - 1];
      ScanCounts(front);
      ScanAppend(front, [c], TOP);
      assert s == front + [c] && [c][1..] == [];
    }
  }

  /** A section's text is cut at a place if and only if there is a semicolon, with an even
      number of quotes before it and no bracket left open by what is outside them. */
  lemma SemicolonsCut(s: string, i: nat)
    ensures IsSeparator(Statements(s, TOP), i)
       <==> i < |s| && s[i] == ';' && Quotes(s[..i]) % 2 == 0 && Open(s[..i]) <= 0
  {
    hide IsSeparator, Statements, Scan, Quotes, Open;
    CutsExactly(s, TOP, i);
    if i < |s| {
      ScanCounts(s[..i]);
    }
  }

  // ---- key statements ----------------------------------------------------------------

  /** isSpace, which knows fewer characters than Trim. */
  predicate KeySpace(c: char) {
    c == ' ' || c == '\t' || c == '\n' || c == '\r'
  }

  /** The contents of the first pair of brackets. */
  function BracketGroup(s: string): Option<string> {
    var open := IndexByte(s, '[');
    if open.None? then None
    else
      var close := IndexByte(s[open.value..], ']');
      if close.None? then None else Some(s[open.value..][1..close.value])
  }

  /** The contents of the bracket group that holds a key's keysym names: the one after
      a "symbols[...]=" label, or else the one after the brace. */
  function SymbolList(statement: string): Option<string> {
    var labelled := Index(statement, "symbols[");
    if labelled.Some? then
      var rest := statement[labelled.value..];
      var assign := Index(rest, "]=");
      if assign.None? then None else BracketGroup(rest[assign.value + 2..])
    else
      var open := IndexByte(statement, '{');
      if open.None? then None else BracketGroup(statement[open.value + 1..])
  }

  /** The X11 name of one entry of a symbol list; empty for none. */
  function SymbolName(names: KeysymNames, symbol: string): string {
    if symbol == "NoSymbol" || symbol == "VoidSymbol" then []
    else if "0x" <= symbol then
      var value := ParseUint(symbol[2..], 16);
      if value.Some? && value.value in names then names[value.value] else []
    else symbol
  }

  function SplitSymbols(names: KeysymNames, list: string): seq<string> {
    var entries := Split(list, ',');
    seq(|entries|, i requires 0 <= i < |entries| => SymbolName(names, Trim(entries[i])))
  }

  method ReadSymbols(names: KeysymNames, list: string) returns (levels: seq<string>)
    ensures levels == SplitSymbols(names, list)
  {
    levels := Split(list, ',');
    ghost var entries := levels;
    for i := 0 to |levels|
      invariant |levels| == |entries|
      invariant forall k :: 0 <= k < i ==> levels[k] == SymbolName(names, Trim(entries[k]))
      invariant forall k :: i <= k < |levels| ==> levels[k] == entries[k]
    {
      levels := levels[i := SymbolName(names, Trim(levels[i]))];
    }
  }

  /** The key name and symbol list of a "key <AE01> { ... }" statement. */
  function KeyStatement(statement: string): Option<(string, string)> {
    var trimmed := Trim(statement);
    if !("key" <= trimmed) || |trimmed| == 3 || !KeySpace(trimmed[3]) then None
    else
      var rest := Trim(trimmed[3..]);
      var close := IndexByte(rest, '>');
      if !("<" <= rest) || close.None? then None
      else
        var list := SymbolList(rest[close.value + 1..]);
        if list.None? then None else Some((rest[..close.value + 1], list.value))
  }

  /** A statement is about a key only if its first word is "key": one of four kinds of
      space must follow. What it says is then between "<" and the next ">", and in its list. */
  lemma KeyStatementParts(statement: string)
    requires KeyStatement(statement).Some?
    ensures var trimmed, (name, list) := Trim(statement), KeyStatement(statement).value;
      && |trimmed| > 3 && trimmed[..3] == "key" && trimmed[3] in " \t\n\r"
      && |name| >= 2 && name[0] == '<' && name[|name| - 1] == '>' && '>' !in name[..|name| - 1]
      && name <= Trim(trimmed[3..]) && SymbolList(Trim(trimmed[3..])[|name|..]) == Some(list)
  {
    hide Trim, SymbolList, IndexByte;
    var rest := Trim(Trim(statement)[3..]);
    IndexByteFirst(rest, '>');
  }

  // ---- the keymap --------------------------------------------------------------------

  type Levels = map<nat, seq<string>>

  /** The table after some statements: the keycodes on the wire, and the names their
      keys produce by shift level. */
  function LevelsOf(names: KeysymNames, codes: map<string, nat>, statements: seq<string>): Levels {
    if statements == [] then map[]
    else
      var before := LevelsOf(names, codes, statements[..|statements| - 1]);
      var key := KeyStatement(statements[|statements| - 1]);
      if key.None? || key.value.0 !in codes || codes[key.value.0] < KEYCODE_OFFSET then before
      else before[codes[key.value.0] - KEYCODE_OFFSET := SplitSymbols(names, key.value.1)]
  }

  function ParsedKeymap(names: KeysymNames, text: string): Levels {
    var codes := Codes(Split(SectionBody(text, "xkb_keycodes"), '\n'));
    if codes == map[] then map[]
    else LevelsOf(names, codes, Statements(SectionBody(text, "xkb_symbols"), TOP))
  }

  method ParseKeymap(names: KeysymNames, text: string) returns (levels: Levels)
    ensures levels == ParsedKeymap(names, text)
  {
    hide SectionBody, Codes, Statements, KeyStatement, SplitSymbols, Split;
    levels := map[];
    var keycodes := ReadSection(text, "xkb_keycodes");
    var codes := ParseKeycodes(keycodes);
    if codes == map[] {
      return;
    }
    var body := ReadSection(text, "xkb_symbols");
    var statements := SplitStatements(body);
    for i := 0 to |statements|
      invariant levels == LevelsOf(names, codes, statements[..i])
    {
      assert statements[..i + 1][..i] == statements[..i];
      var key := KeyStatement(statements[i]);
      if key.None? {
        continue;
      }
      var (name, list) := key.value;
      if name !in codes || codes[name] < KEYCODE_OFFSET {
        continue;
      }
      var symbols := ReadSymbols(names, list);
      levels := levels[codes[name] - KEYCODE_OFFSET := symbols];
    }
    assert statements[..|statements|] == statements;
  }
}
