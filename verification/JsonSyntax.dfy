/** The value type of `json.rs` and the functions its parser computes. */
module JsonSyntax {
  import opened Wrappers
  import opened Utf8
  import opened Hexadecimal

  /** A `BTreeMap` is the list of its entries in key order. */
  datatype Member = Member(key: Text, value: JsonValue)

  datatype JsonValue =
    | Null
    | Bool(flag: bool)
    | Number(number: nat)
    | String(text: Text)
    | Array(values: seq<JsonValue>)
    | Object(members: seq<Member>)

  predicate KeysSorted(members: seq<Member>) {
    forall i, j :: 0 <= i < j < |members| ==> Less(members[i].key, members[j].key)
  }

  predicate HasKey(members: seq<Member>, key: Text) {
    exists i :: 0 <= i < |members| && members[i].key == key
  }

  /** Insertion of a new key into an ordered map. */
  function Insert(members: seq<Member>, key: Text, value: JsonValue): (r: seq<Member>)
    ensures |r| == |members| + 1
  {
    if members == [] || Less(key, members[0].key) then [Member(key, value)] + members
    else [members[0]] + Insert(members[1..], key, value)
  }

  /** Values the type allows: 64-bit numbers and maps with ordered keys. */
  ghost predicate Proper(v: JsonValue) {
    match v
    case Number(n) => n <= MAX_U64
    case Array(values) => forall i :: 0 <= i < |values| ==> Proper(values[i])
    case Object(members) => KeysSorted(members) && forall i :: 0 <= i < |members| ==> Proper(members[i].value)
    case _ => true
  }

  // -----------------------------------------------------------------------
  // Bytes

  const QUOTE: byte := 0x22
  const COMMA: byte := 0x2C
  const SLASH: byte := 0x2F
  const COLON: byte := 0x3A
  const OPEN_BRACKET: byte := 0x5B
  const BACKSLASH: byte := 0x5C
  const CLOSE_BRACKET: byte := 0x5D
  const OPEN_BRACE: byte := 0x7B
  const CLOSE_BRACE: byte := 0x7D

  /** `true`, `false` and `null`. */
  const TRUE_WORD: seq<byte> := [0x74, 0x72, 0x75, 0x65]
  const FALSE_WORD: seq<byte> := [0x66, 0x61, 0x6C, 0x73, 0x65]
  const NULL_WORD: seq<byte> := [0x6E, 0x75, 0x6C, 0x6C]

  predicate Space(b: byte) {
    b == 0x20 || b == 0x0A || b == 0x0D || b == 0x09
  }

  /** Where the blanks starting at `i` end. */
  function SkipSpace(b: seq<byte>, i: nat): (j: nat)
    requires i <= |b|
    ensures i <= j <= |b| && (j < |b| ==> !Space(b[j]))
    ensures forall k :: i <= k < j ==> Space(b[k])
    decreases |b| - i
  {
    if i < |b| && Space(b[i]) then SkipSpace(b, i + 1) else i
  }

  lemma SkipTwice(b: seq<byte>, i: nat)
    requires i <= |b|
    ensures SkipSpace(b, SkipSpace(b, i)) == SkipSpace(b, i)
  {}

  predicate At(b: seq<byte>, i: nat, expected: byte) {
    i < |b| && b[i] == expected
  }

  // -----------------------------------------------------------------------
  // Strings

  /** Where a parse ended and what it read. */
  datatype Parsed<+T> = Parsed(value: T, end: nat)

  /** The character a one-letter escape stands for. */
  function SimpleEscape(b: byte): Option<scalar> {
    if b == QUOTE || b == BACKSLASH || b == SLASH then Some(b as scalar)
    else if b == 0x62 then Some(0x08)
    else if b == 0x66 then Some(0x0C)
    else if b == 0x6E then Some(0x0A)
    else if b == 0x72 then Some(0x0D)
    else if b == 0x74 then Some(0x09)
    else None
  }

  function HexFour(b: seq<byte>, i: nat): Option<nat> {
    if i + 4 <= |b| && HexDigit(b[i]) && HexDigit(b[i + 1]) && HexDigit(b[i + 2]) && HexDigit(b[i + 3])
    then Some(((HexValue(b[i]) * 16 + HexValue(b[i + 1])) * 16 + HexValue(b[i + 2])) * 16 + HexValue(b[i + 3]))
    else None
  }

  /** The escape whose letter is at `i`. Surrogates are refused. */
  function EscapeAt(b: seq<byte>, i: nat): (r: Option<Parsed<scalar>>)
    ensures r.Some? ==> i < r.value.end <= |b|
  {
    if i >= |b| then None
    else if b[i] == 0x75 then
      var n := HexFour(b, i + 1);
      if n.Some? && Scalar(n.value) then Some(Parsed(n.value as scalar, i + 5)) else None
    else
      var c := SimpleEscape(b[i]);
      if c.Some? then Some(Parsed(c.value, i + 1)) else None
  }

  /** The multi-byte character whose first byte is at `i`. */
  function WideAt(b: seq<byte>, i: nat): (r: Option<Parsed<scalar>>)
    requires i < |b|
    ensures r.Some? ==> i < r.value.end <= |b|
  {
    var width := Width(b[i]);
    if width < 2 || i + width > |b| || !WellFormed(b[i..i + width]) then None
    else Some(Parsed(DecodeScalar(b[i..i + width]), i + width))
  }

  /** One character of a string body, escaped or not. */
  function CharAt(b: seq<byte>, i: nat): (r: Option<Parsed<scalar>>)
    requires i < |b|
    ensures r.Some? ==> i < r.value.end <= |b|
  {
    if b[i] == BACKSLASH then EscapeAt(b, i + 1)
    else if b[i] < 0x20 then None
    else if b[i] < 0x80 then Some(Parsed(b[i] as scalar, i + 1))
    else WideAt(b, i)
  }

  /** The rest of a string, up to and including its closing quote. */
  function BodyAt(b: seq<byte>, i: nat): (r: Option<Parsed<Text>>)
    ensures r.Some? ==> i < r.value.end <= |b|
    decreases |b| - i
  {
    if i >= |b| then None
    else if b[i] == QUOTE then Some(Parsed([], i + 1))
    else
      var c := CharAt(b, i);
      if c.None? then None
      else
        var rest := BodyAt(b, c.value.end);
        if rest.None? then None else Some(Parsed([c.value.value] + rest.value.value, rest.value.end))
  }

  function StringAt(b: seq<byte>, i: nat): (r: Option<Parsed<Text>>)
    ensures r.Some? ==> i + 1 < r.value.end <= |b|
  {
    if At(b, i, QUOTE) then BodyAt(b, i + 1) else None
  }

  // -----------------------------------------------------------------------
  // Scalars

  function SkipDigits(b: seq<byte>, i: nat): (j: nat)
    requires i <= |b|
    ensures i <= j <= |b| && (j < |b| ==> !Digit(b[j]))
    ensures forall k :: i <= k < j ==> Digit(b[k])
    decreases |b| - i
  {
    if i < |b| && Digit(b[i]) then SkipDigits(b, i + 1) else i
  }

  /** An unsigned integer without leading zeros that fits in 64 bits. */
  function NumberAt(b: seq<byte>, i: nat): (r: Option<Parsed<JsonValue>>)
    requires i < |b| && Digit(b[i])
    ensures r.Some? ==> i < r.value.end <= |b|
  {
    var end := if b[i] == 0x30 then i + 1 else SkipDigits(b, i);
    if b[i] == 0x30 && end < |b| && Digit(b[end]) then None
    else if Decimal(b[i..end]) > MAX_U64 then None
    else Some(Parsed(Number(Decimal(b[i..end])), end))
  }

  function WordAt(b: seq<byte>, i: nat, word: seq<byte>, v: JsonValue): (r: Option<Parsed<JsonValue>>)
    ensures r.Some? ==> r.value.end == i + |word| <= |b|
  {
    if i + |word| <= |b| && b[i..i + |word|] == word then Some(Parsed(v, i + |word|)) else None
  }

  // -----------------------------------------------------------------------
  // Values

  function ValueAt(b: seq<byte>, from: nat): (r: Option<Parsed<JsonValue>>)
    requires from <= |b|
    ensures r.Some? ==> from < r.value.end <= |b|
    decreases |b| - from, 2
  {
    var i := SkipSpace(b, from);
    if i == |b| then None
    else if b[i] == OPEN_BRACE then
      var j := SkipSpace(b, i + 1);
      if At(b, j, CLOSE_BRACE) then Some(Parsed(Object([]), j + 1)) else MembersAt(b, j, [])
    else if b[i] == OPEN_BRACKET then
      var j := SkipSpace(b, i + 1);
      if At(b, j, CLOSE_BRACKET) then Some(Parsed(Array([]), j + 1)) else ElementsAt(b, j, [])
    else if b[i] == QUOTE then
      var s := StringAt(b, i);
      if s.None? then None else Some(Parsed(String(s.value.value), s.value.end))
    else if b[i] == 0x74 then WordAt(b, i, TRUE_WORD, Bool(true))
    else if b[i] == 0x66 then WordAt(b, i, FALSE_WORD, Bool(false))
    else if b[i] == 0x6E then WordAt(b, i, NULL_WORD, Null)
    else if Digit(b[i]) then NumberAt(b, i)
    else None
  }

  /** One member: key, colon and value, up to the blank before what follows. */
  function MemberAt(b: seq<byte>, from: nat): (r: Option<Parsed<Member>>)
    requires from <= |b|
    ensures r.Some? ==> from < r.value.end <= |b|
    decreases |b| - from, 0
  {
    var key := StringAt(b, SkipSpace(b, from));
    if key.None? then None
    else
      var colon := SkipSpace(b, key.value.end);
      if !At(b, colon, COLON) then None
      else
        var v := ValueAt(b, colon + 1);
        if v.None? then None
        else Some(Parsed(Member(key.value.value, v.value.value), SkipSpace(b, v.value.end)))
  }

  /** The members from `from` on, added to those read so far. */
  function MembersAt(b: seq<byte>, from: nat, members: seq<Member>): (r: Option<Parsed<JsonValue>>)
    requires from <= |b|
    ensures r.Some? ==> from < r.value.end <= |b|
    decreases |b| - from, 1
  {
    var m := MemberAt(b, from);
    if m.None? || HasKey(members, m.value.value.key) then None
    else
      var all := Insert(members, m.value.value.key, m.value.value.value);
      var i := m.value.end;
      if At(b, i, CLOSE_BRACE) then Some(Parsed(Object(all), i + 1))
      else if At(b, i, COMMA) then MembersAt(b, i + 1, all)
      else None
  }

  function ElementsAt(b: seq<byte>, from: nat, values: seq<JsonValue>): (r: Option<Parsed<JsonValue>>)
    requires from <= |b|
    ensures r.Some? ==> from < r.value.end <= |b|
    decreases |b| - from, 3
  {
    var v := ValueAt(b, from);
    if v.None? then None
    else
      var all := values + [v.value.value];
      var i := SkipSpace(b, v.value.end);
      if At(b, i, CLOSE_BRACKET) then Some(Parsed(Array(all), i + 1))
      else if At(b, i, COMMA) then ElementsAt(b, i + 1, all)
      else None
  }

  /** The parser without its pre-screen. */
  function ParseAlone(b: seq<byte>): Option<JsonValue> {
    var v := ValueAt(b, 0);
    if v.Some? && SkipSpace(b, v.value.end) == |b| then Some(v.value.value) else None
  }
}
