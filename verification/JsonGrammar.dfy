/** The document grammar as concrete syntax trees: the restriction of RFC 8259
    to unsigned 64-bit integers and escapes of scalar values. A tree fixes every
    blank, every escape and the order of members. */
module JsonGrammar {
  import opened Wrappers
  import opened Utf8
  import opened Hexadecimal
  import opened JsonSyntax

  // -----------------------------------------------------------------------
  // Strings (section 7 of RFC 8259)

  datatype CharToken =
    | Plain(c: scalar)
    | Short(letter: byte)
    | Hex(h0: byte, h1: byte, h2: byte, h3: byte)

  function HexCode(t: CharToken): nat
    requires t.Hex? && HexDigit(t.h0) && HexDigit(t.h1) && HexDigit(t.h2) && HexDigit(t.h3)
  {
    ((HexValue(t.h0) * 16 + HexValue(t.h1)) * 16 + HexValue(t.h2)) * 16 + HexValue(t.h3)
  }

  predicate TokenOk(t: CharToken) {
    match t
    case Plain(c) => c >= 0x20 && c != QUOTE && c != BACKSLASH
    case Short(letter) => SimpleEscape(letter).Some?
    case Hex(h0, h1, h2, h3) => HexDigit(h0) && HexDigit(h1) && HexDigit(h2) && HexDigit(h3) && Scalar(HexCode(t))
  }

  function TokenChar(t: CharToken): scalar
    requires TokenOk(t)
  {
    match t
    case Plain(c) => c
    case Short(letter) => SimpleEscape(letter).value
    case Hex(_, _, _, _) => HexCode(t)
  }

  function TokenBytes(t: CharToken): seq<byte> {
    match t
    case Plain(c) => EncodeScalar(c)
    case Short(letter) => [BACKSLASH, letter]
    case Hex(h0, h1, h2, h3) => [BACKSLASH, 0x75, h0, h1, h2, h3]
  }

  predicate TokensOk(ts: seq<CharToken>) {
    forall i :: 0 <= i < |ts| ==> TokenOk(ts[i])
  }

  function TokensText(ts: seq<CharToken>): Text
    requires TokensOk(ts)
  {
    if ts == [] then [] else [TokenChar(ts[0])] + TokensText(ts[1..])
  }

  function TokensBytes(ts: seq<CharToken>): seq<byte> {
    if ts == [] then [] else TokenBytes(ts[0]) + TokensBytes(ts[1..])
  }

  function Quoted(ts: seq<CharToken>): seq<byte> {
    [QUOTE] + TokensBytes(ts) + [QUOTE]
  }

  // -----------------------------------------------------------------------
  // Documents

  datatype Cst =
    | Word(value: JsonValue)
    | Num(digits: seq<byte>)
    | Str(tokens: seq<CharToken>)
    | Arr(gap: seq<byte>, items: seq<Item>)
    | Obj(gap: seq<byte>, entries: seq<Entry>)

  /** A node with the blanks around it. */
  datatype Item = Item(before: seq<byte>, node: Cst, after: seq<byte>)

  datatype Entry = Entry(lead: seq<byte>, key: seq<CharToken>, beforeColon: seq<byte>, item: Item)

  predicate Blank(s: seq<byte>) {
    forall i :: 0 <= i < |s| ==> Space(s[i])
  }

  predicate DigitsOk(digits: seq<byte>) {
    && digits != []
    && (forall i :: 0 <= i < |digits| ==> Digit(digits[i]))
    && (digits[0] == 0x30 ==> |digits| == 1)
  }

  function WordBytes(v: JsonValue): seq<byte> {
    match v case Bool(true) => TRUE_WORD case Bool(false) => FALSE_WORD case _ => NULL_WORD
  }

  ghost predicate NodeOk(n: Cst) {
    match n
    case Word(v) => v.Null? || v.Bool?
    case Num(digits) => DigitsOk(digits)
    case Str(tokens) => TokensOk(tokens)
    case Arr(gap, items) => Blank(gap) && forall i :: 0 <= i < |items| ==> ItemOk(items[i])
    case Obj(gap, entries) => Blank(gap) && forall i :: 0 <= i < |entries| ==> EntryOk(entries[i])
  }

  ghost predicate ItemOk(it: Item) {
    Blank(it.before) && NodeOk(it.node) && Blank(it.after)
  }

  ghost predicate EntryOk(e: Entry) {
    Blank(e.lead) && TokensOk(e.key) && Blank(e.beforeColon) && ItemOk(e.item)
  }

  function NodeBytes(n: Cst): seq<byte> {
    match n
    case Word(v) => WordBytes(v)
    case Num(digits) => digits
    case Str(tokens) => Quoted(tokens)
    case Arr(gap, items) => [OPEN_BRACKET] + (if items == [] then gap else ItemsBytes(items)) + [CLOSE_BRACKET]
    case Obj(gap, entries) => [OPEN_BRACE] + (if entries == [] then gap else EntriesBytes(entries)) + [CLOSE_BRACE]
  }

  function ItemBytes(it: Item): seq<byte> {
    it.before + NodeBytes(it.node) + it.after
  }

  function ItemsBytes(items: seq<Item>): seq<byte>
    requires items != []
  {
    ItemBytes(items[0]) + (if |items| == 1 then [] else [COMMA] + ItemsBytes(items[1..]))
  }

  function EntryBytes(e: Entry): seq<byte> {
    e.lead + Quoted(e.key) + e.beforeColon + [COLON] + ItemBytes(e.item)
  }

  function EntriesBytes(entries: seq<Entry>): seq<byte>
    requires entries != []
  {
    EntryBytes(entries[0]) + (if |entries| == 1 then [] else [COMMA] + EntriesBytes(entries[1..]))
  }

  // -----------------------------------------------------------------------
  // Meaning

  /** The value a tree denotes; none when a number does not fit or a key repeats. */
  ghost function Meaning(n: Cst): Option<JsonValue>
    requires NodeOk(n)
  {
    match n
    case Word(v) => Some(v)
    case Num(digits) => if Decimal(digits) <= MAX_U64 then Some(Number(Decimal(digits))) else None
    case Str(tokens) => Some(String(TokensText(tokens)))
    case Arr(_, items) => ArrayMeaning(items, [])
    case Obj(_, entries) => ObjectMeaning(entries, [])
  }

  ghost function ArrayMeaning(items: seq<Item>, values: seq<JsonValue>): Option<JsonValue>
    requires forall i :: 0 <= i < |items| ==> ItemOk(items[i])
  {
    if items == [] then Some(Array(values))
    else
      assert ItemOk(items[0]) && NodeOk(items[0].node);
      var v := Meaning(items[0].node);
      if v.None? then None else ArrayMeaning(items[1..], values + [v.value])
  }

  ghost function ObjectMeaning(entries: seq<Entry>, members: seq<Member>): Option<JsonValue>
    requires forall i :: 0 <= i < |entries| ==> EntryOk(entries[i])
  {
    if entries == [] then Some(Object(members))
    else
      assert EntryOk(entries[0]);
      assert ItemOk(entries[0].item) && NodeOk(entries[0].item.node);
      var key, v := TokensText(entries[0].key), Meaning(entries[0].item.node);
      if v.None? || HasKey(members, key) then None
      else ObjectMeaning(entries[1..], Insert(members, key, v.value))
  }
}
