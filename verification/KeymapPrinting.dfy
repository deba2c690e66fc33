/** Keymaps as compositors print them, and that reading one gives back its table. */
module KeymapPrinting {
  import opened Bytes
  import opened XkbText
  import opened Keymap

  // ---- what is printed ---------------------------------------------------------------

  /** One level of a key: nothing, a keysym's name, or its number. */
  datatype Symbol = NoName | Named(name: string) | Numbered(value: nat)

  /** The short form, or the labelled one with the type and the actions it may have. */
  datatype Form = Short | Labelled(kind: Option<string>, actions: Option<string>)

  datatype Key = Key(name: string, code: nat, symbols: seq<Symbol>, form: Form)

  predicate Letter(c: char) {
    'a' <= c <= 'z' || 'A' <= c <= 'Z' || '0' <= c <= '9'
  }

  /** Letters and digits only, as in the key names XKB defines. */
  predicate PlainName(s: string) {
    forall i :: 0 <= i < |s| ==> Letter(s[i])
  }

  predicate SymbolChar(c: char) {
    Letter(c) || c == '_'
  }

  /** A keysym name that cannot be taken for a placeholder or a number. */
  predicate PlainSymbol(s: string) {
    && s != [] && s != "NoSymbol" && s != "VoidSymbol" && !("0x" <= s)
    && forall i :: 0 <= i < |s| ==> SymbolChar(s[i])
  }

  predicate Bracket(c: char) {
    c == '{' || c == '}' || c == '[' || c == ']'
  }

  /** No quotes and no brackets of any kind. */
  predicate PlainText(s: string) {
    forall i :: 0 <= i < |s| ==> s[i] != '"' && !Bracket(s[i])
  }

  predicate PlainKey(k: Key) {
    && PlainName(k.name) && k.code <= 0xffff_ffff && k.symbols != []
    && (forall i :: 0 <= i < |k.symbols| ==>
          && (k.symbols[i].Named? ==> PlainSymbol(k.symbols[i].name))
          && (k.symbols[i].Numbered? ==> k.symbols[i].value <= 0xffff_ffff))
    && (k.form.Labelled? && k.form.kind.Some? ==> PlainText(k.form.kind.value))
    && (k.form.Labelled? && k.form.actions.Some? ==> PlainText(k.form.actions.value))
  }

  function KeyName(k: Key): string {
    "<" + k.name + ">"
  }

  function SymbolText(s: Symbol): string {
    match s
    case NoName => "NoSymbol"
    case Named(name) => name
    case Numbered(value) => "0x" + Digits(value, 16)
  }

  function SymbolTexts(symbols: seq<Symbol>): string {
    if symbols == [] then []
    else if |symbols| == 1 then SymbolText(symbols[0]) + " "
    else SymbolText(symbols[0]) + "," + (" " + SymbolTexts(symbols[1..]))
  }

  /** What is between the brackets of a symbol list. */
  function ListText(k: Key): string {
    " " + SymbolTexts(k.symbols)
  }

  function KindText(f: Form): string {
    if f.Labelled? && f.kind.Some? then "\n\t\ttype= " + ("\"" + f.kind.value + "\"") + ",\n\t\t" else "\n\t\t"
  }

  function Label(): string {
    "symbols[Group1]= "
  }

  function ActionsText(f: Form): string {
    if f.Labelled? && f.actions.Some? then ",\n\t\tactions[Group1]= " + ("[" + f.actions.value + "]") else ""
  }

  /** What is between the braces of a key statement. */
  function Block(k: Key): string {
    if k.form.Short? then "\t" + ("[" + ListText(k) + "]") + " "
    else KindText(k.form) + Label() + ("[" + ListText(k) + "]") + (ActionsText(k.form) + "\n\t")
  }

  /** A key statement, up to its semicolon. */
  function StatementText(k: Key): string {
    "\n\tkey " + KeyName(k) + " " + ("{" + Block(k) + "}")
  }

  function CodeText(k: Key): string {
    "\t" + KeyName(k) + " = " + Digits(k.code, 10) + ";"
  }

  function CodesText(ks: seq<Key>): string {
    if ks == [] then [] else CodeText(ks[0]) + "\n" + CodesText(ks[1..])
  }

  function StatementsText(ks: seq<Key>): string {
    if ks == [] then "\n" else StatementText(ks[0]) + ";" + StatementsText(ks[1..])
  }

  const KEYCODES_HEAD: string := "xkb_keycodes \"(unnamed)\" "
  const SYMBOLS_HEAD: string := "xkb_symbols \"(unnamed)\" "

  function SectionText(head: string, body: string, after: string): string {
    head + ("{" + body + "}") + (";\n" + after)
  }

  const OPENING: string := "xkb_keymap {\n"
  const CLOSING: string := "};\n"

  function SymbolsText(ks: seq<Key>): string {
    SectionText(SYMBOLS_HEAD, StatementsText(ks), CLOSING)
  }

  /** The two sections, with others between them. */
  function PrintedKeymap(ks: seq<Key>, others: string): string {
    OPENING + SectionText(KEYCODES_HEAD, "\n" + CodesText(ks), others + SymbolsText(ks))
  }

  // ---- the table that was printed -------------------------------------------------------

  function Meaning(names: KeysymNames, s: Symbol): string {
    match s
    case NoName => []
    case Named(name) => name
    case Numbered(value) => if value in names then names[value] else []
  }

  function Meanings(names: KeysymNames, symbols: seq<Symbol>): seq<string> {
    seq(|symbols|, i requires 0 <= i < |symbols| => Meaning(names, symbols[i]))
  }

  /** The keys with codes below 8 have no code on the wire; of keys with the same code,
      the last one counts. */
  function Table(names: KeysymNames, ks: seq<Key>): Levels {
    if ks == [] then map[]
    else
      var before, k := Table(names, ks[..|ks| - 1]), ks[|ks| - 1];
      if k.code < KEYCODE_OFFSET then before else before[k.code - KEYCODE_OFFSET := Meanings(names, k.symbols)]
  }

  // ---- text the scanner passes over ----------------------------------------------------

  /** No statement ends inside this text. */
  predicate Uncut(s: string, at: Scanner) {
    s == [] || (!Cuts(at, s[0]) && Uncut(s[1..], Advance(at, s[0])))
  }

  lemma {:induction false} UncutAppend(a: string, b: string, at: Scanner)
    requires Uncut(a, at) && Uncut(b, Scan(a, at))
    ensures Uncut(a + b, at)
  {
    if a == [] {
      assert a + b == b;
    } else {
      assert (a + b)[1..] == a[1..] + b;
      UncutAppend(a[1..], b, Advance(at, a[0]));
    }
  }

  /** No statement ends inside this text, and the scanner is left as it was. */
  predicate Neutral(s: string, depth: int) {
    Uncut(s, Scanner(depth, false)) && Scan(s, Scanner(depth, false)) == Scanner(depth, false)
  }

  lemma {:induction false} ScanPlain(s: string, at: Scanner)
    requires PlainText(s) && (';' !in s || at.quoted || at.depth >= 1)
    ensures Scan(s, at) == at && Uncut(s, at)
  {
    if s == [] {
    } else {
      ScanPlain(s[1..], at);
    }
  }

  lemma NeutralAppend(a: string, b: string, depth: int)
    requires Neutral(a, depth) && Neutral(b, depth)
    ensures Neutral(a + b, depth)
  {
    ScanAppend(a, b, Scanner(depth, false));
    UncutAppend(a, b, Scanner(depth, false));
  }

  lemma NeutralPlain(s: string, depth: int)
    requires PlainText(s) && (';' !in s || depth >= 1)
    ensures Neutral(s, depth)
  {
    ScanPlain(s, Scanner(depth, false));
  }

  lemma NeutralGroup(open: char, s: string, close: char, depth: int)
    requires (open == '{' && close == '}') || (open == '[' && close == ']')
    requires Neutral(s, depth + 1)
    ensures Neutral([open] + s + [close], depth)
  {
    var at := Scanner(depth, false);
    hide Scan, Uncut;
    ScanAppend([open], s, at);
    ScanAppend([open] + s, [close], at);
    ScanOne(open, at);
    ScanOne(close, Scanner(depth + 1, false));
    UncutAppend([open], s, at);
    UncutAppend([open] + s, [close], at);
  }

  lemma ScanOne(c: char, at: Scanner)
    ensures Scan([c], at) == Advance(at, c) && (Uncut([c], at) <==> !Cuts(at, c))
  {
    assert [c][1..] == [];
    assert Scan([], Advance(at, c)) == Advance(at, c) && Uncut([], Advance(at, c));
  }

  lemma NeutralQuotes(s: string, depth: int)
    requires PlainText(s)
    ensures Neutral("\"" + s + "\"", depth)
  {
    var at := Scanner(depth, false);
    hide Scan, Uncut;
    ScanAppend("\"", s, at);
    ScanAppend("\"" + s, "\"", at);
    ScanOne('"', at);
    ScanPlain(s, Scanner(depth, true));
    ScanOne('"', Scanner(depth, true));
    UncutAppend("\"", s, at);
    UncutAppend("\"" + s, "\"", at);
  }

  // ---- text with matching braces --------------------------------------------------------

  /** Braces are matched in this text, whatever comes after it. */
  ghost predicate Braced(s: string) {
    forall rest, depth: nat :: depth >= 1 ==> MatchingBrace(s + rest, depth) == Shift(|s|, MatchingBrace(rest, depth))
  }

  lemma {:induction false} BraceSkip(s: string, rest: string, depth: nat)
    requires '{' !in s && '}' !in s
    ensures MatchingBrace(s + rest, depth) == Shift(|s|, MatchingBrace(rest, depth))
  {
    if s == [] {
      assert s + rest == rest;
    } else {
      assert (s + rest)[1..] == s[1..] + rest;
      BraceStep(s + rest, depth);
      BraceSkip(s[1..], rest, depth);
    }
  }

  lemma BracedPlain(s: string)
    requires '{' !in s && '}' !in s
    ensures Braced(s)
  {
    hide MatchingBrace;
    forall rest, depth: nat | depth >= 1 ensures MatchingBrace(s + rest, depth) == Shift(|s|, MatchingBrace(rest, depth)) {
      BraceSkip(s, rest, depth);
    }
  }

  lemma BracedAppend(a: string, b: string)
    requires Braced(a) && Braced(b)
    ensures Braced(a + b)
  {
    hide MatchingBrace;
    forall rest, depth: nat | depth >= 1 ensures MatchingBrace(a + b + rest, depth) == Shift(|a + b|, MatchingBrace(rest, depth)) {
      assert a + b + rest == a + (b + rest);
      assert MatchingBrace(a + (b + rest), depth) == Shift(|a|, MatchingBrace(b + rest, depth));
    }
  }

  lemma BracedAt(s: string, rest: string, depth: nat)
    requires Braced(s) && depth >= 1
    ensures MatchingBrace(s + rest, depth) == Shift(|s|, MatchingBrace(rest, depth))
  {
    hide MatchingBrace;
  }

  lemma GroupAt(s: string, rest: string, depth: nat)
    requires Braced(s) && depth >= 1
    ensures MatchingBrace("{" + s + "}" + rest, depth) == Shift(|s| + 2, MatchingBrace(rest, depth))
  {
    hide MatchingBrace, Braced;
    var t := "{" + s + "}" + rest;
    BraceStep(t, depth);
    assert t[1..] == s + ("}" + rest);
    BracedAt(s, "}" + rest, depth + 1);
    BraceStep("}" + rest, depth + 1);
    assert ("}" + rest)[1..] == rest;
  }

  lemma BracedGroup(s: string)
    requires Braced(s)
    ensures Braced("{" + s + "}")
  {
    hide MatchingBrace;
    forall rest, depth: nat | depth >= 1 ensures MatchingBrace("{" + s + "}" + rest, depth) == Shift(|"{" + s + "}"|, MatchingBrace(rest, depth)) {
      GroupAt(s, rest, depth);
    }
  }

  /** The body of a section with matching braces. */
  lemma SectionOf(before: string, head: string, body: string, after: string, keyword: string)
    requires Index(before + head + ("{" + body + "}") + after, keyword) == Some(|before|)
    requires '{' !in head && Braced(body)
    ensures SectionBody(before + head + ("{" + body + "}") + after, keyword) == body
  {
    hide Index, IndexByte, MatchingBrace, SectionBody, Braced;
    var text := before + head + ("{" + body + "}") + after;
    var inner := body + ("}" + after);
    assert text == before + (head + ['{'] + inner);
    assert text[|before|..] == head + ['{'] + inner;
    IndexByteAt(head, '{', inner);
    SectionAt(text, keyword, |before|, |head|);
    assert text[|before| + |head| + 1..] == inner;
    BracedAt(body, "}" + after, 1);
    BraceStep("}" + after, 1);
  }

  // ---- symbols -----------------------------------------------------------------------------

  lemma SymbolTextPlain(s: Symbol)
    requires s.Named? ==> PlainSymbol(s.name)
    ensures var t := SymbolText(s);
      t != [] && forall i :: 0 <= i < |t| ==> SymbolChar(t[i])
  {
    if s.Numbered? {
      DigitsPlain(s.value, 16);
    }
  }

  lemma SymbolRead(names: KeysymNames, s: Symbol)
    requires s.Named? ==> PlainSymbol(s.name)
    requires s.Numbered? ==> s.value <= 0xffff_ffff
    ensures SymbolName(names, SymbolText(s)) == Meaning(names, s)
  {
    if s.Numbered? {
      var digits := Digits(s.value, 16);
      assert ("0x" + digits)[2..] == digits && ("0x" + digits)[0] == '0';
      DigitsRoundTrip(s.value, 16);
    }
  }

  ghost predicate PlainSymbols(symbols: seq<Symbol>) {
    forall i :: 0 <= i < |symbols| ==>
      && (symbols[i].Named? ==> PlainSymbol(symbols[i].name))
      && (symbols[i].Numbered? ==> symbols[i].value <= 0xffff_ffff)
  }

  lemma {:induction false} ListSplit(symbols: seq<Symbol>)
    requires symbols != [] && PlainSymbols(symbols)
    ensures var pieces := Split(" " + SymbolTexts(symbols), ',');
      |pieces| == |symbols| && forall i :: 0 <= i < |symbols| ==> Trim(pieces[i]) == SymbolText(symbols[i])
  {
    hide Split, Trim, SymbolText, PlainSymbol, Digits;
    var text := SymbolText(symbols[0]);
    SymbolTextPlain(symbols[0]);
    if |symbols| == 1 {
      var list := " " + text + " ";
      assert " " + SymbolTexts(symbols) == list;
      assert ',' !in list;
      SplitNone(list, ',');
      TrimPadded(" ", text, " ");
    } else {
      var rest := " " + SymbolTexts(symbols[1..]);
      assert " " + SymbolTexts(symbols) == (" " + text) + [','] + rest;
      assert ',' !in " " + text;
      SplitAt(" " + text, ',', rest);
      TrimPadded(" ", text, "");
      assert " " + text + "" == " " + text;
      ListSplit(symbols[1..]);
    }
  }

  /** A printed symbol list is read as what it means. */
  lemma SymbolsRead(names: KeysymNames, k: Key)
    requires PlainKey(k)
    ensures SplitSymbols(names, ListText(k)) == Meanings(names, k.symbols)
  {
    hide Split, Trim, SymbolTexts, PlainSymbol, SymbolName, Meaning, SymbolText;
    ListSplit(k.symbols);
    var a, b := SplitSymbols(names, ListText(k)), Meanings(names, k.symbols);
    assert |a| == |b|;
    forall i | 0 <= i < |a| ensures a[i] == b[i] {
      SymbolRead(names, k.symbols[i]);
    }
  }

  lemma {:induction false} ListPlain(symbols: seq<Symbol>)
    requires PlainSymbols(symbols)
    ensures forall i :: 0 <= i < |SymbolTexts(symbols)| ==> SymbolChar(SymbolTexts(symbols)[i]) || SymbolTexts(symbols)[i] in " ,"
  {
    hide SymbolText, SymbolChar, PlainSymbol;
    if symbols == [] {
    } else {
      SymbolTextPlain(symbols[0]);
      if |symbols| > 1 {
        ListPlain(symbols[1..]);
      }
    }
  }

  // ---- key statements ------------------------------------------------------------------------

  lemma BracketOf(a: string, list: string, b: string)
    requires '[' !in a && ']' !in list
    ensures BracketGroup(a + ("[" + list + "]") + b) == Some(list)
  {
    hide IndexByte;
    var s := a + ("[" + list + "]") + b;
    assert s == a + ['['] + (list + "]" + b);
    IndexByteAt(a, '[', list + "]" + b);
    assert s[|a|..] == ("[" + list) + [']'] + b;
    IndexByteAt("[" + list, ']', b);
    assert s[|a|..][1..|list| + 1] == list;
  }

  lemma ListBrackets(k: Key)
    requires PlainKey(k)
    ensures '[' !in ListText(k) && ']' !in ListText(k) && '{' !in ListText(k) && '}' !in ListText(k) && PlainText(ListText(k)) && ';' !in ListText(k)
  {
    hide SymbolTexts, PlainSymbol;
    ListPlain(k.symbols);
  }

  lemma NoLabel(list: string)
    requires '[' !in list
    ensures Index(" {\t[" + list + "] }", "symbols[") == None
  {
    hide Index, StartsAt;
    var s := " {\t[" + list + "] }";
    forall i | 0 <= i < |s| ensures !StartsAt(s + "", "symbols[", i) {
      assert s + "" == s;
      if i + 7 < |s| {
        assert s[i + 7] != '[';
      }
      NotAt(s, "symbols[", i, 7);
    }
    IndexSkip(s, "", "symbols[");
    assert s + "" == s;
    assert Index("", "symbols[") == None by { NoIndex("symbols["); }
  }

  /** The short form has no label: its only bracket comes too early for one. */
  lemma ShortList(k: Key)
    requires PlainKey(k) && k.form.Short?
    ensures SymbolList(" " + ("{" + Block(k) + "}")) == Some(ListText(k))
  {
    hide Index, IndexByte, BracketGroup, ListText, PlainKey, StartsAt;
    var list := ListText(k);
    ListBrackets(k);
    var s := " " + ("{" + Block(k) + "}");
    assert s == " {\t[" + list + "] }";
    NoLabel(list);
    assert s == " " + ['{'] + ("\t" + ("[" + list + "]") + " }");
    IndexByteAt(" ", '{', "\t" + ("[" + list + "]") + " }");
    assert s[2..] == "\t" + ("[" + list + "]") + " }";
    BracketOf("\t", list, " }");
  }

  lemma NoIndex(word: string)
    requires word != []
    ensures Index("", word) == None
  {
  }

  lemma IndexHere(word: string, s: string)
    ensures Index(word + s, word) == Some(0)
  {
    assert word <= word + s;
  }

  /** The text before the label, cut where no label can reach across. */
  function BeforeLabel(k: Key): (r: (string, string))
    requires PlainKey(k) && k.form.Labelled?
    ensures '[' !in r.0 && '[' !in r.1 && r.1 != [] && r.1[0] !in "symbols[" && 's' !in r.1
  {
    if k.form.kind.Some? then (" {\n\t\ttype= \"" + k.form.kind.value, "\",\n\t\t") else (" {", "\n\t\t")
  }

  lemma BeforeLabelIs(k: Key)
    requires PlainKey(k) && k.form.Labelled?
    ensures " {" + KindText(k.form) == BeforeLabel(k).0 + BeforeLabel(k).1
  {
    hide PlainKey;
    if k.form.kind.Some? {
      var kind := k.form.kind.value;
      assert " {" + "\n\t\ttype= " + "\"" == " {\n\t\ttype= \"";
      assert "\"" + ",\n\t\t" == "\",\n\t\t";
      assert " {" + ("\n\t\ttype= " + ("\"" + kind + "\"") + ",\n\t\t") == (" {" + "\n\t\ttype= " + "\"") + kind + ("\"" + ",\n\t\t");
    }
  }

  lemma Regroup(kind: string, name: string, group: string, after: string)
    ensures " " + ("{" + (kind + name + group + after) + "}") == " {" + kind + (name + (group + (after + "}")))
  {
    assert " " + "{" == " {";
  }

  lemma LabelParts(rest: string)
    ensures Label() + rest == "symbols[Group1" + ("]=" + (" " + rest))
    ensures Label() + rest == "symbols[" + ("Group1]= " + rest)
  {
    assert Label() == "symbols[Group1" + "]=" + " ";
    assert Label() == "symbols[" + "Group1]= ";
  }

  lemma LabelAfter(before: string, end: string, rest: string)
    requires '[' !in before && '[' !in end && end != [] && end[0] !in "symbols[" && 's' !in end
    ensures Index(before + end + rest, "symbols[") == Shift(|before + end|, Index(rest, "symbols["))
  {
    hide Index, StartsAt;
    IndexAfterWithout(before, end, rest, "symbols[", 7);
  }

  lemma LabelFound(before: string, end: string, rest: string)
    requires '[' !in before && '[' !in end && end != [] && end[0] !in "symbols[" && 's' !in end
    ensures Index(before + end + (Label() + rest), "symbols[") == Some(|before + end|)
  {
    hide Index, Label;
    LabelHere(rest);
    LabelAfter(before, end, Label() + rest);
  }

  lemma LabelHere(rest: string)
    ensures Index(Label() + rest, "symbols[") == Some(0)
  {
    assert "symbols[" <= Label();
    assert "symbols[" <= Label() + rest;
  }

  lemma AssignFound(rest: string)
    ensures Index(Label() + rest, "]=") == Some(14) && (Label() + rest)[16..] == " " + rest
  {
    hide Index, StartsAt;
    LabelParts(rest);
    IndexAfter("symbols[Group1", "]=" + (" " + rest), "]=");
    IndexHere("]=", " " + rest);
  }

  /** The list after the label, whose own bracket is not taken for it. */
  lemma ListAfterLabel(before: string, end: string, list: string, after: string)
    requires '[' !in before && '[' !in end && end != [] && end[0] !in "symbols[" && 's' !in end && ']' !in list
    ensures SymbolList(before + end + (Label() + (("[" + list + "]") + after))) == Some(list)
  {
    var rest := ("[" + list + "]") + after;
    LabelFound(before, end, rest);
    AssignFound(rest);
    BracketOf(" ", list, after);
    hide Index, IndexByte, BracketGroup, Label;
    var s := before + end + (Label() + rest);
    assert s[|before + end|..] == Label() + rest;
    assert " " + rest == " " + ("[" + list + "]") + after;
  }

  /** The label is found past the type. */
  lemma LabelledList(k: Key)
    requires PlainKey(k) && k.form.Labelled?
    ensures SymbolList(" " + ("{" + Block(k) + "}")) == Some(ListText(k))
  {
    hide SymbolList, ListText, ActionsText, KindText, BeforeLabel, PlainKey;
    ListBrackets(k);
    var after := ActionsText(k.form) + "\n\t";
    Regroup(KindText(k.form), Label(), "[" + ListText(k) + "]", after);
    BeforeLabelIs(k);
    ListAfterLabel(BeforeLabel(k).0, BeforeLabel(k).1, ListText(k), after + "}");
  }

  lemma NamePlain(k: Key)
    requires PlainKey(k)
    ensures '>' !in "<" + k.name && '{' !in k.name && '}' !in k.name && PlainText(k.name) && ';' !in k.name && '_' !in k.name && '\n' !in k.name
  {
    hide PlainSymbol;
  }

  /** A statement is read as its key and its list, whatever space surrounds it and follows
      its first word. */
  lemma SpacedStatementRead(k: Key, before: string, c: char, pad: string, after: string)
    requires PlainKey(k) && Blank(before) && Blank(pad) && Blank(after) && c in " \t\n\r"
    ensures KeyStatement(before + ("key" + ([c] + pad) + ("<" + k.name + ">" + (" " + ("{" + Block(k) + "}")))) + after)
         == Some((KeyName(k), ListText(k)))
  {
    hide Trim, IndexByte, SymbolList, Block, ListText, PlainSymbol;
    var block := " " + ("{" + Block(k) + "}");
    NamePlain(k);
    var named := "<" + k.name + ">" + block;
    var statement := "key" + ([c] + pad) + named;
    assert named[0] == '<' && named[|named| - 1] == '}';
    TrimPadded(before, statement, after);
    assert statement[3..] == ([c] + pad) + named + "";
    TrimPadded([c] + pad, named, "");
    assert named == ("<" + k.name) + ['>'] + block;
    IndexByteAt("<" + k.name, '>', block);
    assert named[..|k.name| + 2] == KeyName(k) && named[|k.name| + 2..] == block;
    if k.form.Short? {
      ShortList(k);
    } else {
      LabelledList(k);
    }
  }

  /** A printed statement is read as its key and its list. */
  lemma StatementRead(k: Key)
    requires PlainKey(k)
    ensures KeyStatement(StatementText(k)) == Some((KeyName(k), ListText(k)))
  {
    hide KeyStatement, Block, ListText, PlainSymbol;
    var named := "<" + k.name + ">" + (" " + ("{" + Block(k) + "}"));
    SpacedStatementRead(k, "\n\t", ' ', "", "");
    assert StatementText(k) == "\n\t" + ("key" + ([' '] + "") + named) + "";
  }

  // ---- the parts of a statement, for the scanners ------------------------------------------

  lemma BlockNeutral(k: Key)
    requires PlainKey(k)
    ensures Neutral(Block(k), 1)
  {
    hide Neutral, PlainKey, ListText;
    ListBrackets(k);
    var list := "[" + ListText(k) + "]";
    NeutralPlain(ListText(k), 2);
    NeutralGroup('[', ListText(k), ']', 1);
    if k.form.Short? {
      NeutralPlain("\t", 1);
      NeutralPlain(" ", 1);
      NeutralAppend("\t", list, 1);
      NeutralAppend("\t" + list, " ", 1);
    } else {
      KindNeutral(k);
      LabelNeutral("symbols");
      assert "symbols" + "[Group1]" + "= " == Label();
      ActionsNeutral(k);
      NeutralAppend(KindText(k.form), Label(), 1);
      NeutralAppend(KindText(k.form) + Label(), list, 1);
      NeutralAppend(KindText(k.form) + Label() + list, ActionsText(k.form) + "\n\t", 1);
    }
  }

  /** A word with a group label after it. */
  lemma LabelNeutral(word: string)
    requires PlainText(word) && ';' !in word
    ensures Neutral(word + "[Group1]" + "= ", 1)
  {
    hide Scan, Uncut;
    NeutralPlain(word, 1);
    NeutralPlain("Group1", 2);
    NeutralPlain("= ", 1);
    NeutralGroup('[', "Group1", ']', 1);
    assert "[" + "Group1" + "]" == "[Group1]";
    NeutralAppend(word, "[Group1]", 1);
    NeutralAppend(word + "[Group1]", "= ", 1);
  }

  lemma KindNeutral(k: Key)
    requires PlainKey(k)
    ensures Neutral(KindText(k.form), 1)
  {
    hide Scan, Uncut, Neutral;
    NeutralPlain("\n\t\t", 1);
    if k.form.Labelled? && k.form.kind.Some? {
      var quoted := "\"" + k.form.kind.value + "\"";
      NeutralPlain("\n\t\ttype= ", 1);
      NeutralQuotes(k.form.kind.value, 1);
      NeutralPlain(",\n\t\t", 1);
      NeutralAppend("\n\t\ttype= ", quoted, 1);
      NeutralAppend("\n\t\ttype= " + quoted, ",\n\t\t", 1);
    }
  }

  lemma ActionsNeutral(k: Key)
    requires PlainKey(k)
    ensures Neutral(ActionsText(k.form) + "\n\t", 1)
  {
    hide Scan, Uncut, Neutral;
    NeutralPlain("\n\t", 1);
    if k.form.Labelled? && k.form.actions.Some? {
      var actions := k.form.actions.value;
      LabelNeutral(",\n\t\tactions");
      NeutralPlain(actions, 2);
      NeutralGroup('[', actions, ']', 1);
      assert ",\n\t\tactions" + "[Group1]" + "= " == ",\n\t\tactions[Group1]= ";
      NeutralAppend(",\n\t\tactions[Group1]= ", "[" + actions + "]", 1);
      NeutralAppend(",\n\t\tactions[Group1]= " + ("[" + actions + "]"), "\n\t", 1);
    } else {
      assert "" + "\n\t" == "\n\t";
    }
  }

  lemma StatementNeutral(k: Key)
    requires PlainKey(k)
    ensures Neutral(StatementText(k), 0)
  {
    hide Neutral, PlainKey, Block, PlainText;
    BlockNeutral(k);
    NeutralGroup('{', Block(k), '}', 0);
    HeadNeutral(k);
    NeutralAppend("\n\tkey " + KeyName(k) + " ", "{" + Block(k) + "}", 0);
  }

  lemma HeadNeutral(k: Key)
    requires PlainKey(k)
    ensures Neutral("\n\tkey " + KeyName(k) + " ", 0)
  {
    hide Neutral;
    NamePlain(k);
    NeutralPlain("\n\tkey " + KeyName(k) + " ", 0);
  }

  /** A statement the scanner does not cut is the first one. */
  lemma {:induction false} StatementsUncut(a: string, b: string, at: Scanner)
    requires Uncut(a, at)
    ensures Statements(a + b, at) == Prepend(a, Statements(b, Scan(a, at)))
  {
    if a == [] {
      assert a + b == b;
      PrependNothing(Statements(b, at));
    } else {
      assert (a + b)[0] == a[0] && (a + b)[1..] == a[1..] + b;
      StatementsUncut(a[1..], b, Advance(at, a[0]));
      var rest := Statements(b, Scan(a, at));
      assert [a[0]] + (a[1..] + rest[0]) == a + rest[0];
    }
  }

  lemma StatementCut(a: string, b: string)
    requires Neutral(a, 0)
    ensures Statements(a + ";" + b, TOP) == [a] + Statements(b, TOP)
  {
    hide Uncut, Scan, Statements;
    assert a + ";" + b == a + (";" + b);
    StatementsUncut(a, ";" + b, TOP);
    StatementsStep(";" + b, TOP, a);
    assert (";" + b)[1..] == b;
  }

  function StatementTexts(ks: seq<Key>): seq<string> {
    seq(|ks|, i requires 0 <= i < |ks| => StatementText(ks[i]))
  }

  ghost predicate PlainKeys(ks: seq<Key>) {
    forall i :: 0 <= i < |ks| ==> PlainKey(ks[i])
  }

  lemma {:induction false} StatementsRead(ks: seq<Key>)
    requires PlainKeys(ks)
    ensures Statements(StatementsText(ks), TOP) == StatementTexts(ks) + ["\n"]
  {
    hide Statements, StatementText, PlainKey, Neutral;
    if ks == [] {
      assert Statements("\n", TOP) == ["\n"] by { LastStatement(); }
    } else {
      StatementNeutral(ks[0]);
      StatementCut(StatementText(ks[0]), StatementsText(ks[1..]));
      StatementsRead(ks[1..]);
      assert StatementTexts(ks) == [StatementText(ks[0])] + StatementTexts(ks[1..]);
    }
  }

  lemma LastStatement()
    ensures Statements("\n", TOP) == ["\n"]
  {
    NoStatements("\n", TOP);
    StatementsUncut("\n", "", TOP);
    assert "\n" + "" == "\n";
  }

  // ---- key codes ------------------------------------------------------------------------------

  lemma CodePlain(k: Key)
    ensures forall i :: 0 <= i < |Digits(k.code, 10)| ==> Letter(Digits(k.code, 10)[i])
  {
    DigitsPlain(k.code, 10);
  }

  /** A printed code is read as its key and its number. */
  lemma CodeRead(k: Key)
    requires PlainKey(k)
    ensures CodeLine(CodeText(k)) == Some((KeyName(k), k.code))
  {
    hide Trim, IndexByte, PlainKey, Digits, DigitsNumber;
    NamePlain(k);
    CodePlain(k);
    var digits := Digits(k.code, 10);
    var line := KeyName(k) + (" = " + digits + ";");
    assert CodeText(k) == "\t" + line + "";
    TrimPadded("\t", line, "");
    assert line == ("<" + k.name) + ['>'] + (" = " + digits + ";");
    IndexByteAt("<" + k.name, '>', " = " + digits + ";");
    assert line[|k.name| + 2..] == " " + ("= " + digits + ";") + "";
    TrimPadded(" ", "= " + digits + ";", "");
    NumberRead(k);
    assert line[..|k.name| + 2] == KeyName(k);
  }

  lemma NumberRead(k: Key)
    requires PlainKey(k)
    ensures var rest := "= " + Digits(k.code, 10) + ";";
      && IndexByte(rest[1..], ';') == Some(|Digits(k.code, 10)| + 1)
      && ParseUint(Trim(rest[1..][..|Digits(k.code, 10)| + 1]), 10) == Some(k.code)
  {
    hide Trim, IndexByte, Digits, DigitsNumber;
    CodePlain(k);
    var digits := Digits(k.code, 10);
    var rest := "= " + digits + ";";
    assert rest[1..] == (" " + digits) + [';'] + "";
    IndexByteAt(" " + digits, ';', "");
    assert rest[1..][..|digits| + 1] == " " + digits + "";
    TrimPadded(" ", digits, "");
    DigitsRoundTrip(k.code, 10);
  }

  function CodeTexts(ks: seq<Key>): seq<string> {
    seq(|ks|, i requires 0 <= i < |ks| => CodeText(ks[i]))
  }

  lemma CodeTextOneLine(k: Key)
    requires PlainKey(k)
    ensures '\n' !in CodeText(k) && '{' !in CodeText(k) && '}' !in CodeText(k) && '_' !in CodeText(k)
  {
    hide PlainKey, Digits;
    NamePlain(k);
    CodePlain(k);
  }

  lemma {:induction false} CodeLines(ks: seq<Key>)
    requires PlainKeys(ks)
    ensures Split(CodesText(ks), '\n') == CodeTexts(ks) + [""]
  {
    hide CodeText, PlainKey;
    if ks == [] {
    } else {
      CodeTextOneLine(ks[0]);
      assert CodesText(ks) == CodeText(ks[0]) + ['\n'] + CodesText(ks[1..]);
      SplitAt(CodeText(ks[0]), '\n', CodesText(ks[1..]));
      CodeLines(ks[1..]);
      assert CodeTexts(ks) == [CodeText(ks[0])] + CodeTexts(ks[1..]);
    }
  }

  /** The codes that were printed. */
  function CodeMap(ks: seq<Key>): map<string, nat> {
    if ks == [] then map[] else CodeMap(ks[..|ks| - 1])[KeyName(ks[|ks| - 1]) := ks[|ks| - 1].code]
  }

  lemma {:induction false} CodesOfTexts(ks: seq<Key>)
    requires PlainKeys(ks)
    ensures Codes([""] + CodeTexts(ks)) == CodeMap(ks)
  {
    hide CodeText, PlainKey, CodeLine, KeyName;
    var lines := [""] + CodeTexts(ks);
    if ks == [] {
      EmptyLine();
      assert lines == [""] && lines[..0] == [];
    } else {
      var n := |ks| - 1;
      CodesOfTexts(ks[..n]);
      CodeRead(ks[n]);
      assert lines[..|lines| - 1] == [""] + CodeTexts(ks[..n]);
      assert lines[|lines| - 1] == CodeText(ks[n]);
    }
  }

  lemma EmptyLine()
    ensures CodeLine("") == None
  {
  }

  lemma CodesRead(ks: seq<Key>)
    requires PlainKeys(ks)
    ensures Codes(Split("\n" + CodesText(ks), '\n')) == CodeMap(ks)
  {
    hide Split, CodeMap, CodeLine, PlainKeys;
    assert "\n" + CodesText(ks) == "" + ['\n'] + CodesText(ks);
    SplitAt("", '\n', CodesText(ks));
    CodeLines(ks);
    var lines := [""] + (CodeTexts(ks) + [""]);
    assert lines[..|lines| - 1] == [""] + CodeTexts(ks);
    EmptyLine();
    CodesOfTexts(ks);
  }

  ghost predicate DistinctNames(ks: seq<Key>) {
    forall i, j :: 0 <= i < j < |ks| ==> ks[i].name != ks[j].name
  }

  lemma {:induction false} CodeMapAt(ks: seq<Key>, i: nat)
    requires DistinctNames(ks) && i < |ks|
    ensures KeyName(ks[i]) in CodeMap(ks) && CodeMap(ks)[KeyName(ks[i])] == ks[i].code
  {
    var n := |ks| - 1;
    if i == n {
    } else {
      CodeMapAt(ks[..n], i);
      assert KeyName(ks[i])[1..|ks[i].name| + 1] == ks[i].name;
      assert KeyName(ks[n])[1..|ks[n].name| + 1] == ks[n].name;
    }
  }

  // ---- the round trip ----------------------------------------------------------------------------

  lemma {:induction false} TableRead(names: KeysymNames, ks: seq<Key>, codes: map<string, nat>)
    requires PlainKeys(ks)
    requires forall i :: 0 <= i < |ks| ==> KeyName(ks[i]) in codes && codes[KeyName(ks[i])] == ks[i].code
    ensures LevelsOf(names, codes, StatementTexts(ks)) == Table(names, ks)
  {
    hide StatementText, PlainKey, KeyStatement, SplitSymbols, Meanings, KeyName, ListText;
    if ks == [] {
    } else {
      var n := |ks| - 1;
      assert StatementTexts(ks)[..n] == StatementTexts(ks[..n]);
      TableRead(names, ks[..n], codes);
      StatementRead(ks[n]);
      SymbolsRead(names, ks[n]);
    }
  }

  lemma LastRead(names: KeysymNames, statements: seq<string>, codes: map<string, nat>)
    ensures LevelsOf(names, codes, statements + ["\n"]) == LevelsOf(names, codes, statements)
  {
    assert (statements + ["\n"])[..|statements|] == statements;
    TrimBlank("\n");
  }

  lemma {:induction false} CodesBraced(ks: seq<Key>)
    requires PlainKeys(ks)
    ensures '{' !in CodesText(ks) && '}' !in CodesText(ks) && '_' !in CodesText(ks)
  {
    hide CodeText, PlainKey;
    if ks == [] {
    } else {
      CodeTextOneLine(ks[0]);
      CodesBraced(ks[1..]);
    }
  }

  lemma BlockBraceless(k: Key)
    requires PlainKey(k)
    ensures '{' !in Block(k) && '}' !in Block(k)
  {
    hide ListText;
    ListBrackets(k);
  }

  lemma {:induction false} StatementsBraced(ks: seq<Key>)
    requires PlainKeys(ks)
    ensures Braced(StatementsText(ks))
  {
    hide Braced, PlainKey, Block;
    if ks == [] {
      BracedPlain("\n");
    } else {
      var k := ks[0];
      NamePlain(k);
      var head := "\n\tkey " + KeyName(k) + " ";
      BracedPlain(head);
      BlockBraceless(k);
      BracedPlain(Block(k));
      BracedGroup(Block(k));
      BracedAppend(head, "{" + Block(k) + "}");
      BracedPlain(";");
      BracedAppend(StatementText(k), ";");
      StatementsBraced(ks[1..]);
      BracedAppend(StatementText(k) + ";", StatementsText(ks[1..]));
    }
  }

  lemma HeadHere(head: string, body: string, after: string, keyword: string)
    requires keyword <= head
    ensures Index(SectionText(head, body, after), keyword) == Some(0)
  {
    assert keyword <= SectionText(head, body, after);
  }

  lemma SectionIn(before: string, head: string, body: string, after: string, keyword: string)
    requires Index(before + SectionText(head, body, after), keyword) == Some(|before|)
    requires '{' !in head && Braced(body)
    ensures SectionBody(before + SectionText(head, body, after), keyword) == body
  {
    hide Index, SectionBody, Braced;
    assert before + SectionText(head, body, after) == before + head + ("{" + body + "}") + (";\n" + after);
    SectionOf(before, head, body, ";\n" + after, keyword);
  }

  lemma KeycodesSection(ks: seq<Key>, others: string)
    requires PlainKeys(ks)
    ensures SectionBody(PrintedKeymap(ks, others), "xkb_keycodes") == "\n" + CodesText(ks)
  {
    hide SectionBody, Index, Braced, SymbolsText, CodesText, SectionText;
    var body, after := "\n" + CodesText(ks), others + SymbolsText(ks);
    PastOpening(SectionText(KEYCODES_HEAD, body, after));
    HeadHere(KEYCODES_HEAD, body, after, "xkb_keycodes");
    CodesBraced(ks);
    BracedPlain(body);
    SectionIn(OPENING, KEYCODES_HEAD, body, after, "xkb_keycodes");
  }

  /** The symbols are not looked for among the key codes. */
  lemma PastKeycodes(body: string, after: string)
    requires '_' !in body
    ensures Index(SectionText(KEYCODES_HEAD, body, after), "xkb_symbols")
         == Shift(|KEYCODES_HEAD| + |body| + 4, Index(after, "xkb_symbols"))
  {
    hide Index, StartsAt, SectionText;
    var rest := ("{" + body) + "};\n" + after;
    Regrouped(KEYCODES_HEAD, body, after);
    PastHead(rest);
    IndexAfterWithout("{" + body, "};\n", after, "xkb_symbols", 3);
  }

  lemma PastHead(rest: string)
    ensures Index(KEYCODES_HEAD + rest, "xkb_symbols") == Shift(|KEYCODES_HEAD|, Index(rest, "xkb_symbols"))
  {
    hide Index, StartsAt;
    IndexAfterOther(KEYCODES_HEAD, rest, "xkb_symbols", 4);
  }

  lemma PastOpening(rest: string)
    ensures Index(OPENING + rest, "xkb_symbols") == Shift(|OPENING|, Index(rest, "xkb_symbols"))
    ensures Index(OPENING + rest, "xkb_keycodes") == Shift(|OPENING|, Index(rest, "xkb_keycodes"))
  {
    hide Index, StartsAt;
    IndexAfterOther(OPENING, rest, "xkb_symbols", 4);
    IndexAfterOther(OPENING, rest, "xkb_keycodes", 7);
  }

  lemma Regrouped(head: string, body: string, after: string)
    ensures SectionText(head, body, after) == head + (("{" + body) + "};\n" + after)
  {
    assert "}" + ";\n" == "};\n";
  }

  lemma BeforeSymbols(opening: string, head: string, body: string, others: string, symbols: string)
    ensures opening + SectionText(head, body, others + symbols) == opening + (head + (("{" + body) + "};\n")) + others + symbols
  {
    hide SectionText;
    Regrouped(head, body, others + symbols);
    assert opening + (head + (("{" + body) + "};\n" + (others + symbols))) == opening + (head + (("{" + body) + "};\n")) + others + symbols;
  }

  lemma SymbolsStart(ks: seq<Key>)
    ensures SymbolsText(ks) != [] && SymbolsText(ks)[0] == 'x'
    ensures Index(SymbolsText(ks), "xkb_symbols") == Some(0)
  {
    hide Index, StatementsText, StartsAt, Braced;
    HeadHere(SYMBOLS_HEAD, StatementsText(ks), CLOSING, "xkb_symbols");
    assert SYMBOLS_HEAD[0] == 'x' && SymbolsText(ks)[0] == SYMBOLS_HEAD[0];
  }

  lemma SymbolsTextIs(ks: seq<Key>)
    ensures SymbolsText(ks) == SectionText(SYMBOLS_HEAD, StatementsText(ks), CLOSING)
  {
    hide StatementsText, SectionText;
  }

  lemma PastOthers(others: string, symbols: string)
    requires Index(others, "xkb_symbols").None?
    requires symbols != [] && symbols[0] == 'x'
    ensures Index(others + symbols, "xkb_symbols") == Shift(|others|, Index(symbols, "xkb_symbols"))
  {
    hide Index;
    IndexAfterNone(others, symbols, "xkb_symbols");
  }

  /** What is printed before the symbols. */
  function BeforeText(ks: seq<Key>, others: string): string {
    OPENING + (KEYCODES_HEAD + (("{" + ("\n" + CodesText(ks))) + "};\n")) + others
  }

  lemma PrintedBefore(ks: seq<Key>, others: string)
    ensures PrintedKeymap(ks, others) == BeforeText(ks, others) + SymbolsText(ks)
  {
    hide StatementsText, CodesText, SectionText, SymbolsText;
    BeforeSymbols(OPENING, KEYCODES_HEAD, "\n" + CodesText(ks), others, SymbolsText(ks));
  }

  lemma SymbolsIndex(ks: seq<Key>, others: string)
    requires PlainKeys(ks) && Index(others, "xkb_symbols").None?
    ensures Index(PrintedKeymap(ks, others), "xkb_symbols") == Some(|BeforeText(ks, others)|)
  {
    hide Index, Braced, StatementsText, CodesText, SectionText, SymbolsText;
    var body, after := "\n" + CodesText(ks), others + SymbolsText(ks);
    PastOpening(SectionText(KEYCODES_HEAD, body, after));
    CodesBraced(ks);
    PastKeycodes(body, after);
    SymbolsStart(ks);
    PastOthers(others, SymbolsText(ks));
  }

  lemma SymbolsSection(ks: seq<Key>, others: string)
    requires PlainKeys(ks) && Index(others, "xkb_symbols").None?
    ensures SectionBody(PrintedKeymap(ks, others), "xkb_symbols") == StatementsText(ks)
  {
    PrintedBefore(ks, others);
    SymbolsIndex(ks, others);
    StatementsBraced(ks);
    SymbolsTextIs(ks);
    assert '{' !in SYMBOLS_HEAD;
    hide *;
    SectionIn(BeforeText(ks, others), SYMBOLS_HEAD, StatementsText(ks), CLOSING, "xkb_symbols");
  }

  /** Reading a printed keymap gives back exactly its table, in either form, with or
      without types and actions, and whatever other sections come in between. */
  lemma PrintedKeymapRead(names: KeysymNames, ks: seq<Key>, others: string)
    requires PlainKeys(ks) && DistinctNames(ks) && Index(others, "xkb_symbols").None?
    ensures ParsedKeymap(names, PrintedKeymap(ks, others)) == Table(names, ks)
  {
    hide SectionBody, PrintedKeymap, Codes, Split, CodesText, StatementsText, Statements, LevelsOf, CodeMap, PlainKeys, Table, Index;
    KeycodesSection(ks, others);
    SymbolsSection(ks, others);
    CodesRead(ks);
    StatementsRead(ks);
    if ks == [] {
      NoKeys(names);
    } else {
      forall i | 0 <= i < |ks| ensures KeyName(ks[i]) in CodeMap(ks) && CodeMap(ks)[KeyName(ks[i])] == ks[i].code {
        CodeMapAt(ks, i);
      }
      assert KeyName(ks[0]) in CodeMap(ks);
      TableRead(names, ks, CodeMap(ks));
      LastRead(names, StatementTexts(ks), CodeMap(ks));
    }
  }

  lemma NoKeys(names: KeysymNames)
    ensures CodeMap([]) == map[] && Table(names, []) == map[]
  {
  }

  /** The last key with a code gives its names. */
  lemma {:induction false} TableLast(names: KeysymNames, ks: seq<Key>, i: nat)
    requires i < |ks| && ks[i].code >= KEYCODE_OFFSET
    requires forall j :: i < j < |ks| ==> ks[j].code != ks[i].code
    ensures ks[i].code - KEYCODE_OFFSET in Table(names, ks)
    ensures Table(names, ks)[ks[i].code - KEYCODE_OFFSET] == Meanings(names, ks[i].symbols)
  {
    hide Meanings;
    var n := |ks| - 1;
    if i == n {
    } else {
      TableLast(names, ks[..n], i);
    }
  }

  /** And nothing else is in the table. */
  lemma {:induction false} TableOnly(names: KeysymNames, ks: seq<Key>, c: nat)
    requires c in Table(names, ks)
    ensures exists i :: 0 <= i < |ks| && ks[i].code == c + KEYCODE_OFFSET
  {
    hide Meanings;
    var n := |ks| - 1;
    if ks[n].code == c + KEYCODE_OFFSET {
    } else {
      TableOnly(names, ks[..n], c);
      var i :| 0 <= i < n && ks[..n][i].code == c + KEYCODE_OFFSET;
      assert ks[i].code == c + KEYCODE_OFFSET;
    }
  }
}
