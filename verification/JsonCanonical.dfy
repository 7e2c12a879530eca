/** The canonical printer of `json.rs`, and its relation to the parser. */
module JsonCanonical {
  import opened Utf8
  import opened Hexadecimal
  import opened JsonSyntax
  import opened JsonGrammar

  // -----------------------------------------------------------------------
  // What the printer writes

  function PrintChar(c: scalar): Text {
    if c == QUOTE then [BACKSLASH, QUOTE]
    else if c == BACKSLASH then [BACKSLASH, BACKSLASH]
    else if c == 0x0A then [BACKSLASH, 0x6E]
    else if c == 0x0D then [BACKSLASH, 0x72]
    else if c == 0x09 then [BACKSLASH, 0x74]
    else if c <= 0x1F then [BACKSLASH, 0x75, 0x30, 0x30, HexLetter(c / 16), HexLetter(c % 16)]
    else [c]
  }

  /** The first `n` characters, escaped. */
  function PrintChars(text: Text, n: nat): Text
    requires n <= |text|
  {
    if n == 0 then [] else PrintChars(text, n - 1) + PrintChar(text[n - 1])
  }

  function PrintString(text: Text): Text {
    [QUOTE] + PrintChars(text, |text|) + [QUOTE]
  }

  function DigitsOf(n: nat): (digits: seq<byte>)
    ensures digits != [] && forall i :: 0 <= i < |digits| ==> Digit(digits[i])
  {
    if n < 10 then [0x30 + n] else DigitsOf(n / 10) + [0x30 + n % 10]
  }

  function Ascii(bytes: seq<byte>): (text: Text)
    requires forall i :: 0 <= i < |bytes| ==> bytes[i] < 0x80
    ensures |text| == |bytes| && forall i :: 0 <= i < |text| ==> text[i] == bytes[i]
  {
    seq(|bytes|, i requires 0 <= i < |bytes| => bytes[i] as scalar)
  }

  function PrintValue(v: JsonValue): Text
    decreases v, 1
  {
    match v
    case Null => Ascii(NULL_WORD)
    case Bool(flag) => Ascii(if flag then TRUE_WORD else FALSE_WORD)
    case Number(n) => Ascii(DigitsOf(n))
    case String(text) => PrintString(text)
    case Array(values) => [OPEN_BRACKET] + PrintValues(values, |values|) + [CLOSE_BRACKET]
    case Object(members) => [OPEN_BRACE] + PrintMembers(members, |members|) + [CLOSE_BRACE]
  }

  function Separator(n: nat): Text {
    if n == 0 then [] else [COMMA]
  }

  /** The first `n` elements, separated by commas. */
  function PrintValues(values: seq<JsonValue>, n: nat): Text
    requires n <= |values|
    decreases values, 0, n
  {
    if n == 0 then []
    else PrintValues(values, n - 1) + Separator(n - 1) + PrintValue(values[n - 1])
  }

  function PrintMember(m: Member): Text
    decreases m, 2
  {
    PrintString(m.key) + [COLON] + PrintValue(m.value)
  }

  function PrintMembers(members: seq<Member>, n: nat): Text
    requires n <= |members|
    decreases members, 0, n
  {
    if n == 0 then []
    else PrintMembers(members, n - 1) + Separator(n - 1) + PrintMember(members[n - 1])
  }

  /** The canonical document: the value and a line feed. */
  function CanonicalText(v: JsonValue): Text {
    PrintValue(v) + [0x0A]
  }

  function CanonicalBytes(v: JsonValue): seq<byte> {
    Encode(CanonicalText(v))
  }

  // -----------------------------------------------------------------------
  // The tree of a canonical document

  function TokenOf(c: scalar): CharToken {
    if c == QUOTE || c == BACKSLASH then Short(c)
    else if c == 0x0A then Short(0x6E)
    else if c == 0x0D then Short(0x72)
    else if c == 0x09 then Short(0x74)
    else if c <= 0x1F then Hex(0x30, 0x30, HexLetter(c / 16), HexLetter(c % 16))
    else Plain(c)
  }

  function TokensOf(text: Text): (ts: seq<CharToken>)
    ensures |ts| == |text| && forall i :: 0 <= i < |ts| ==> ts[i] == TokenOf(text[i])
  {
    seq(|text|, i requires 0 <= i < |text| => TokenOf(text[i]))
  }

  function TreeOf(v: JsonValue): Cst
    decreases v, 1
  {
    match v
    case Number(n) => Num(DigitsOf(n))
    case String(text) => Str(TokensOf(text))
    case Array(values) => Arr([], ItemsOf(values, |values|))
    case Object(members) => Obj([], EntriesOf(members, |members|))
    case _ => Word(v)
  }

  function ItemsOf(values: seq<JsonValue>, n: nat): (items: seq<Item>)
    requires n <= |values|
    ensures |items| == n && forall i :: 0 <= i < n ==> items[i] == Item([], TreeOf(values[i]), [])
    decreases values, 0, n
  {
    if n == 0 then [] else ItemsOf(values, n - 1) + [Item([], TreeOf(values[n - 1]), [])]
  }

  function EntriesOf(members: seq<Member>, n: nat): (entries: seq<Entry>)
    requires n <= |members|
    ensures |entries| == n
    ensures forall i :: 0 <= i < n ==>
              entries[i] == Entry([], TokensOf(members[i].key), [], Item([], TreeOf(members[i].value), []))
    decreases members, 0, n
  {
    if n == 0 then []
    else
      var m := members[n - 1];
      EntriesOf(members, n - 1) + [Entry([], TokensOf(m.key), [], Item([], TreeOf(m.value), []))]
  }

  // -----------------------------------------------------------------------
  // The printer spells that tree

  lemma TokenOfFacts(c: scalar)
    ensures TokenOk(TokenOf(c)) && TokenChar(TokenOf(c)) == c
    ensures Encode(PrintChar(c)) == TokenBytes(TokenOf(c))
  {
    if 0x1F < c && c != QUOTE && c != BACKSLASH {
      assert Encode([c]) == EncodeScalar(c) + Encode([]);
    } else {
      EncodeAscii(PrintChar(c));
    }
  }

  lemma {:induction false} EncodeAscii(text: Text)
    requires forall i :: 0 <= i < |text| ==> text[i] < 0x80
    ensures |Encode(text)| == |text| && forall i :: 0 <= i < |text| ==> Encode(text)[i] == text[i]
  {
    if text != [] {
      EncodeAscii(text[1..]);
      assert Encode(text) == [text[0]] + Encode(text[1..]);
    }
  }

  lemma {:induction false} TokensAppend(a: seq<CharToken>, b: seq<CharToken>)
    ensures TokensBytes(a + b) == TokensBytes(a) + TokensBytes(b)
  {
    hide TokenBytes;
    if a == [] {
      assert a + b == b;
    } else {
      TokensAppend(a[1..], b);
      assert (a + b)[1..] == a[1..] + b;
    }
  }

  lemma {:induction false} CharsSpell(text: Text, n: nat)
    requires n <= |text|
    ensures Encode(PrintChars(text, n)) == TokensBytes(TokensOf(text)[..n])
  {
    hide TokenOf, PrintChar, TokenBytes;
    if n > 0 {
      CharsSpell(text, n - 1);
      TokenOfFacts(text[n - 1]);
      EncodeAppend(PrintChars(text, n - 1), PrintChar(text[n - 1]));
      var t := TokenOf(text[n - 1]);
      TokensAppend(TokensOf(text)[..n - 1], [t]);
      assert TokensBytes([t]) == TokenBytes(t) + TokensBytes([]);
      assert TokensOf(text)[..n] == TokensOf(text)[..n - 1] + [t];
    }
  }

  lemma StringSpells(text: Text)
    ensures Encode(PrintString(text)) == Quoted(TokensOf(text))
  {
    CharsSpell(text, |text|);
    assert TokensOf(text)[..|text|] == TokensOf(text);
    EncodeAscii([QUOTE]);
    EncodeAppend([QUOTE], PrintChars(text, |text|));
    EncodeAppend([QUOTE] + PrintChars(text, |text|), [QUOTE]);
    assert Encode([QUOTE]) == [QUOTE];
  }

  lemma Enclose(open: byte, text: Text, close: byte)
    requires open < 0x80 && close < 0x80
    ensures Encode([open] + text + [close]) == [open] + Encode(text) + [close]
  {
    EncodeAscii([open]);
    EncodeAscii([close]);
    EncodeAppend([open], text);
    EncodeAppend([open] + text, [close]);
    assert Encode([open]) == [open] && Encode([close]) == [close];
  }

  lemma AsciiSpells(bytes: seq<byte>)
    requires forall i :: 0 <= i < |bytes| ==> bytes[i] < 0x80
    ensures Encode(Ascii(bytes)) == bytes
  {
    EncodeAscii(Ascii(bytes));
  }

  lemma {:induction false} ItemsAppend(items: seq<Item>, it: Item)
    requires items != []
    ensures ItemsBytes(items + [it]) == ItemsBytes(items) + [COMMA] + ItemBytes(it)
  {
    hide ItemBytes;
    var all := items + [it];
    assert all[0] == items[0];
    if |items| == 1 {
      assert all[1..] == [it];
    } else {
      assert all[1..] == items[1..] + [it];
      ItemsAppend(items[1..], it);
    }
  }

  lemma {:induction false} EntriesAppend(entries: seq<Entry>, e: Entry)
    requires entries != []
    ensures EntriesBytes(entries + [e]) == EntriesBytes(entries) + [COMMA] + EntryBytes(e)
  {
    hide EntryBytes;
    var all := entries + [e];
    assert all[0] == entries[0];
    if |entries| == 1 {
      assert all[1..] == [e];
    } else {
      assert all[1..] == entries[1..] + [e];
      EntriesAppend(entries[1..], e);
    }
  }

  lemma {:induction false} ValueSpells(v: JsonValue)
    ensures Encode(PrintValue(v)) == NodeBytes(TreeOf(v))
    decreases v, 1
  {
    hide PrintValues, PrintMembers, PrintString, Quoted, DigitsOf, ItemsBytes, EntriesBytes;
    match v
    case Null => AsciiSpells(NULL_WORD);
    case Bool(flag) => AsciiSpells(if flag then TRUE_WORD else FALSE_WORD);
    case Number(n) => AsciiSpells(DigitsOf(n));
    case String(text) => StringSpells(text);
    case Array(values) =>
      Enclose(OPEN_BRACKET, PrintValues(values, |values|), CLOSE_BRACKET);
      ValuesSpell(values, |values|);
    case Object(members) =>
      Enclose(OPEN_BRACE, PrintMembers(members, |members|), CLOSE_BRACE);
      MembersSpell(members, |members|);
  }

  lemma {:induction false} ValuesSpell(values: seq<JsonValue>, n: nat)
    requires n <= |values|
    ensures Encode(PrintValues(values, n)) == if n == 0 then [] else ItemsBytes(ItemsOf(values, n))
    decreases values, 0, n
  {
    hide PrintValue, TreeOf;
    if n > 0 {
      ValuesSpell(values, n - 1);
      ValueSpells(values[n - 1]);
      var it := Item([], TreeOf(values[n - 1]), []);
      assert ItemBytes(it) == NodeBytes(it.node);
      EncodeAscii([COMMA]);
      assert Encode([COMMA]) == [COMMA];
      EncodeAppend(PrintValues(values, n - 1), Separator(n - 1));
      EncodeAppend(PrintValues(values, n - 1) + Separator(n - 1), PrintValue(values[n - 1]));
      if n > 1 {
        ItemsAppend(ItemsOf(values, n - 1), it);
      }
    }
  }

  lemma {:induction false} MemberSpells(m: Member)
    ensures Encode(PrintMember(m)) == EntryBytes(Entry([], TokensOf(m.key), [], Item([], TreeOf(m.value), [])))
    decreases m, 2
  {
    hide PrintValue, TreeOf, PrintString, Quoted;
    ValueSpells(m.value);
    StringSpells(m.key);
    EncodeAscii([COLON]);
    assert Encode([COLON]) == [COLON];
    EncodeAppend(PrintString(m.key), [COLON]);
    EncodeAppend(PrintString(m.key) + [COLON], PrintValue(m.value));
    var it := Item([], TreeOf(m.value), []);
    assert ItemBytes(it) == NodeBytes(it.node);
  }

  lemma {:induction false} MembersSpell(members: seq<Member>, n: nat)
    requires n <= |members|
    ensures Encode(PrintMembers(members, n)) == if n == 0 then [] else EntriesBytes(EntriesOf(members, n))
    decreases members, 0, n
  {
    hide PrintMember, TreeOf, TokensOf, EntryBytes;
    if n > 0 {
      MembersSpell(members, n - 1);
      var m := members[n - 1];
      MemberSpells(m);
      var e := Entry([], TokensOf(m.key), [], Item([], TreeOf(m.value), []));
      EncodeAscii([COMMA]);
      assert Encode([COMMA]) == [COMMA];
      EncodeAppend(PrintMembers(members, n - 1), Separator(n - 1));
      EncodeAppend(PrintMembers(members, n - 1) + Separator(n - 1), PrintMember(m));
      if n > 1 {
        EntriesAppend(EntriesOf(members, n - 1), e);
      }
    }
  }
}
