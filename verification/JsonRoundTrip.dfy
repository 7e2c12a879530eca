/** Round trips between the printer and the parser. */
module JsonRoundTrip {
  import opened Wrappers
  import opened Utf8
  import opened Hexadecimal
  import opened JsonSyntax
  import opened JsonGrammar
  import opened JsonParsing
  import opened JsonScreen
  import opened JsonCanonical

  // -----------------------------------------------------------------------
  // Key order

  lemma {:induction false} LessAsymmetric(a: Text, b: Text)
    requires Less(a, b)
    ensures !Less(b, a) && a != b
  {
    if a != [] && a[0] == b[0] {
      LessAsymmetric(a[1..], b[1..]);
    }
  }

  lemma {:induction false} LessTransitive(a: Text, b: Text, c: Text)
    requires Less(a, b) && Less(b, c)
    ensures Less(a, c)
  {
    if a != [] && a[0] == b[0] && b[0] == c[0] {
      LessTransitive(a[1..], b[1..], c[1..]);
    }
  }

  lemma {:induction false} LessTotal(a: Text, b: Text)
    ensures Less(a, b) || Less(b, a) || a == b
  {
    if a != [] && b != [] && a[0] == b[0] {
      LessTotal(a[1..], b[1..]);
      assert a == [a[0]] + a[1..] && b == [b[0]] + b[1..];
    }
  }

  /** Members of the inserted list: the old ones and the new one. */
  lemma {:induction false} InsertMembers(members: seq<Member>, key: Text, v: JsonValue, i: nat)
    requires i <= |members|
    ensures Insert(members, key, v)[i] == Member(key, v) || Insert(members, key, v)[i] in members
    decreases |members|
  {
    if members != [] && !Less(key, members[0].key) && i > 0 {
      InsertMembers(members[1..], key, v, i - 1);
    }
  }

  lemma {:induction false} InsertKeepsOrder(members: seq<Member>, key: Text, v: JsonValue)
    requires KeysSorted(members) && !HasKey(members, key)
    ensures KeysSorted(Insert(members, key, v))
  {
    var r := Insert(members, key, v);
    if members == [] {
    } else if Less(key, members[0].key) {
      forall j | 0 <= j < |members| ensures Less(key, members[j].key) {
        if j > 0 {
          LessTransitive(key, members[0].key, members[j].key);
        }
      }
      assert forall j :: 1 <= j < |r| ==> r[j] == members[j - 1];
    } else {
      LessTotal(key, members[0].key);
      assert members[0].key != key;
      forall k | 0 <= k < |members[1..]| ensures members[1..][k].key != key {
        assert members[1..][k] == members[k + 1];
      }
      InsertKeepsOrder(members[1..], key, v);
      forall j | 1 <= j < |r| ensures Less(r[0].key, r[j].key) {
        InsertMembers(members[1..], key, v, j - 1);
      }
      assert forall j :: 1 <= j < |r| ==> r[j] == Insert(members[1..], key, v)[j - 1];
    }
  }

  /** A key above all others goes to the end. */
  lemma {:induction false} InsertLast(members: seq<Member>, key: Text, v: JsonValue)
    requires forall i :: 0 <= i < |members| ==> Less(members[i].key, key)
    ensures !HasKey(members, key) && Insert(members, key, v) == members + [Member(key, v)]
  {
    if HasKey(members, key) {
      var i :| 0 <= i < |members| && members[i].key == key;
      LessAsymmetric(key, key);
    }
    if members != [] {
      LessAsymmetric(members[0].key, key);
      InsertLast(members[1..], key, v);
    }
  }

  /** Two different keys may be inserted in either order. */
  lemma {:induction false} InsertCommutes(members: seq<Member>, j: Text, v: JsonValue, k: Text, w: JsonValue)
    requires j != k
    ensures Insert(Insert(members, j, v), k, w) == Insert(Insert(members, k, w), j, v)
  {
    LessTotal(j, k);
    if Less(j, k) {
      LessAsymmetric(j, k);
    } else {
      LessAsymmetric(k, j);
    }
    if members != [] {
      var h := members[0].key;
      if Less(j, k) && Less(k, h) {
        LessTransitive(j, k, h);
      }
      if Less(k, j) && Less(j, h) {
        LessTransitive(k, j, h);
      }
      if !Less(j, h) && !Less(k, h) {
        InsertCommutes(members[1..], j, v, k, w);
      }
    }
  }

  // -----------------------------------------------------------------------
  // The canonical tree means the value

  lemma {:induction false} DigitsFacts(n: nat)
    ensures DigitsOk(DigitsOf(n)) && Decimal(DigitsOf(n)) == n
    ensures n > 0 ==> DigitsOf(n)[0] != 0x30
  {
    var digits := DigitsOf(n);
    if n < 10 {
      assert digits[..0] == [];
    } else {
      DigitsFacts(n / 10);
      assert digits[..|digits| - 1] == DigitsOf(n / 10);
    }
  }

  lemma {:induction false} TokensOfText(text: Text)
    ensures TokensOk(TokensOf(text)) && TokensText(TokensOf(text)) == text
  {
    forall i | 0 <= i < |text| ensures TokenOk(TokenOf(text[i])) {
      TokenOfFacts(text[i]);
    }
    if text != [] {
      TokenOfFacts(text[0]);
      TokensOfText(text[1..]);
      assert TokensOf(text)[1..] == TokensOf(text[1..]);
    }
  }

  lemma {:induction false} TreeMeans(v: JsonValue)
    requires Proper(v)
    ensures NodeOk(TreeOf(v)) && Meaning(TreeOf(v)) == Some(v)
    decreases v, 1
  {
    hide ItemsOf, EntriesOf, ArrayMeaning, ObjectMeaning;
    match v
    case Null =>
    case Bool(_) =>
    case Number(n) => DigitsFacts(n);
    case String(text) => TokensOfText(text);
    case Array(values) => ItemsMean(values, 0);
    case Object(members) => EntriesMean(members, 0);
  }

  lemma {:induction false} ItemsMean(values: seq<JsonValue>, n: nat)
    requires n <= |values| && forall i :: 0 <= i < |values| ==> Proper(values[i])
    ensures forall i :: 0 <= i < |values| ==> ItemOk(ItemsOf(values, |values|)[i])
    ensures ItemsOf(values, |values|)[0..] == ItemsOf(values, |values|)
    ensures values[..0] == []
    ensures ArrayMeaning(ItemsOf(values, |values|)[n..], values[..n]) == Some(Array(values))
    decreases values, 0, |values| - n
  {
    hide ItemsOf, Proper, Meaning;
    var items := ItemsOf(values, |values|);
    forall i | 0 <= i < |values| ensures ItemOk(items[i]) && Meaning(items[i].node) == Some(values[i]) {
      TreeMeans(values[i]);
    }
    if n == |values| {
      assert values[..n] == values && items[n..] == [];
    } else {
      ItemsMean(values, n + 1);
      assert items[n..][0] == items[n] && items[n..][1..] == items[n + 1..];
      assert values[..n + 1] == values[..n] + [values[n]];
    }
  }

  lemma {:induction false} EntriesMean(members: seq<Member>, n: nat)
    requires n <= |members| && KeysSorted(members) && forall i :: 0 <= i < |members| ==> Proper(members[i].value)
    ensures forall i :: 0 <= i < |members| ==> EntryOk(EntriesOf(members, |members|)[i])
    ensures EntriesOf(members, |members|)[0..] == EntriesOf(members, |members|)
    ensures members[..0] == []
    ensures ObjectMeaning(EntriesOf(members, |members|)[n..], members[..n]) == Some(Object(members))
    decreases members, 0, |members| - n
  {
    hide EntriesOf, Proper, Meaning, Insert, HasKey, Less, NodeOk;
    var entries := EntriesOf(members, |members|);
    forall i | 0 <= i < |members|
      ensures EntryOk(entries[i]) && ItemOk(entries[i].item) && Meaning(entries[i].item.node) == Some(members[i].value)
    {
      TreeMeans(members[i].value);
      TokensOfText(members[i].key);
    }
    if n == |members| {
      assert members[..n] == members && entries[n..] == [];
    } else {
      EntriesMean(members, n + 1);
      TokensOfText(members[n].key);
      InsertLast(members[..n], members[n].key, members[n].value);
      assert entries[n..][0] == entries[n] && entries[n..][1..] == entries[n + 1..];
      assert members[..n + 1] == members[..n] + [members[n]];
    }
  }

  // -----------------------------------------------------------------------
  // Round trips

  /** Parsing a canonical document gives back the value. */
  lemma CanonicalParses(v: JsonValue)
    requires Proper(v)
    ensures ParseAlone(CanonicalBytes(v)) == Some(v)
  {
    hide NodeBytes, PrintValue, Meaning, TreeOf, NodeOk, ValueAt;
    TreeMeans(v);
    ValueSpells(v);
    EncodeAscii([0x0A]);
    assert Encode([0x0A]) == [0x0A];
    EncodeAppend(PrintValue(v), [0x0A]);
    var doc := Item([], TreeOf(v), [0x0A]);
    assert ItemBytes(doc) == CanonicalBytes(v);
    ParserDecidesGrammar(CanonicalBytes(v), v);
  }

  /** Distinct values have distinct canonical bytes. */
  lemma CanonicalInjective(v: JsonValue, w: JsonValue)
    requires Proper(v) && Proper(w) && CanonicalBytes(v) == CanonicalBytes(w)
    ensures v == w
  {
    CanonicalParses(v);
    CanonicalParses(w);
  }

  /** `parse_json` reads a canonical document back exactly within the bounds. */
  lemma RoundTrip(v: JsonValue)
    requires Proper(v)
    ensures ParseJson(CanonicalText(v)) == Some(v) <==>
              |CanonicalBytes(v)| <= MAX_RETAINED_BYTES && Nesting(v) <= MAX_DEPTH
  {
    CanonicalParses(v);
    ScreenOnlyAddsBounds(CanonicalText(v), v);
  }

  // -----------------------------------------------------------------------
  // Parsed values are proper

  lemma {:induction false} InsertKeepsProper(members: seq<Member>, key: Text, v: JsonValue)
    requires Proper(Object(members)) && Proper(v) && !HasKey(members, key)
    ensures Proper(Object(Insert(members, key, v)))
  {
    InsertKeepsOrder(members, key, v);
    var r := Insert(members, key, v);
    forall i | 0 <= i < |r| ensures Proper(r[i].value) {
      InsertMembers(members, key, v, i);
    }
  }

  lemma {:induction false} MeaningIsProper(n: Cst)
    requires NodeOk(n) && Meaning(n).Some?
    ensures Proper(Meaning(n).value)
    decreases n, 0
  {
    match n
    case Arr(_, items) => ArrayIsProper(items, []);
    case Obj(_, entries) => ObjectIsProper(entries, []);
    case _ =>
  }

  lemma {:induction false} ArrayIsProper(items: seq<Item>, values: seq<JsonValue>)
    requires forall i :: 0 <= i < |items| ==> ItemOk(items[i])
    requires ArrayMeaning(items, values).Some? && Proper(Array(values))
    ensures Proper(ArrayMeaning(items, values).value)
    decreases items, 0
  {
    hide Meaning, NodeOk;
    if items != [] {
      assert ItemOk(items[0]);
      MeaningIsProper(items[0].node);
      ArrayIsProper(items[1..], values + [Meaning(items[0].node).value]);
    }
  }

  lemma {:induction false} ObjectIsProper(entries: seq<Entry>, members: seq<Member>)
    requires forall i :: 0 <= i < |entries| ==> EntryOk(entries[i])
    requires ObjectMeaning(entries, members).Some? && Proper(Object(members))
    ensures Proper(ObjectMeaning(entries, members).value)
    decreases entries, 0
  {
    hide Meaning, NodeOk, Insert, HasKey, Proper, TokensText;
    if entries != [] {
      assert EntryOk(entries[0]) && ItemOk(entries[0].item);
      MeaningIsProper(entries[0].item.node);
      var key, v := TokensText(entries[0].key), Meaning(entries[0].item.node).value;
      InsertKeepsProper(members, key, v);
      ObjectIsProper(entries[1..], Insert(members, key, v));
    }
  }

  lemma ParsedIsProper(b: seq<byte>)
    requires ParseAlone(b).Some?
    ensures Proper(ParseAlone(b).value)
  {
    hide ValueAt, Meaning, NodeOk;
    var doc := ItemFrom(b, 0);
    MeaningIsProper(doc.node);
  }

  /** Re-canonicalising an accepted document reads back the same value, as long
      as the canonical form still fits; nesting never stands in the way. */
  lemma RecanonicalisingIsIdempotent(document: Text)
    requires ParseJson(document).Some?
    ensures var v := ParseJson(document).value;
            Proper(v)
            && (ParseJson(CanonicalText(v)) == Some(v) <==> |CanonicalBytes(v)| <= MAX_RETAINED_BYTES)
  {
    var v := ParseJson(document).value;
    ScreenOnlyAddsBounds(document, v);
    ParsedIsProper(Encode(document));
    RoundTrip(v);
  }

  // -----------------------------------------------------------------------
  // The canonical form may outgrow the size bound

  function BackspaceTokens(n: nat): (ts: seq<CharToken>)
    ensures |ts| == n && forall i :: 0 <= i < n ==> ts[i] == Short(0x62)
  {
    seq(n, _ => Short(0x62))
  }

  function BackspaceText(n: nat): (text: Text)
    ensures |text| == n && forall i :: 0 <= i < n ==> text[i] == 0x08
  {
    seq(n, _ => 0x08)
  }

  /** A string of `n` backspaces, each written as a two-byte escape. */
  function Backspaces(n: nat): Cst {
    Str(BackspaceTokens(n))
  }

  lemma {:induction false} BackspacesShort(n: nat)
    ensures TokensOk(BackspaceTokens(n)) && TokensText(BackspaceTokens(n)) == BackspaceText(n)
    ensures |TokensBytes(BackspaceTokens(n))| == 2 * n
    ensures forall i :: 0 <= i < 2 * n ==> TokensBytes(BackspaceTokens(n))[i] < 0x80
  {
    if n > 0 {
      BackspacesShort(n - 1);
      assert BackspaceTokens(n)[1..] == BackspaceTokens(n - 1);
      assert TokensText(BackspaceTokens(n)) == [0x08] + BackspaceText(n - 1);
      assert TokensBytes(BackspaceTokens(n)) == [BACKSLASH, 0x62] + TokensBytes(BackspaceTokens(n - 1));
    }
  }

  lemma {:induction false} BackspacesLong(text: Text, n: nat)
    requires n <= |text| && forall i :: 0 <= i < |text| ==> text[i] == 0x08
    ensures |PrintChars(text, n)| == 6 * n && forall i :: 0 <= i < 6 * n ==> PrintChars(text, n)[i] < 0x80
  {
    if n > 0 {
      BackspacesLong(text, n - 1);
      assert PrintChar(0x08) == [BACKSLASH, 0x75, 0x30, 0x30, 0x30, 0x38];
    }
  }

  lemma StringMeans(ts: seq<CharToken>)
    requires TokensOk(ts)
    ensures NodeOk(Str(ts)) && Meaning(Str(ts)) == Some(String(TokensText(ts)))
  {}

  /** `n` backspaces take `2n + 2` bytes as written and `6n + 3` canonically. */
  lemma BackspacesGrow(n: nat)
    ensures var bytes := NodeBytes(Backspaces(n));
            var v := String(BackspaceText(n));
            |bytes| == 2 * n + 2 && (forall i :: 0 <= i < |bytes| ==> bytes[i] < 0x80)
            && ParseAlone(bytes) == Some(v) && |CanonicalBytes(v)| == 6 * n + 3
  {
    hide PrintChars, TokensBytes, TokensText, ValueAt, Encode, SkipSpace, TokensOk, ParseAlone;
    var text := BackspaceText(n);
    BackspacesShort(n);
    BackspacesLong(text, n);
    var doc := Item([], Backspaces(n), []);
    assert ItemBytes(doc) == NodeBytes(Backspaces(n));
    StringMeans(BackspaceTokens(n));
    assert ItemOk(doc);
    ParserDecidesGrammar(NodeBytes(Backspaces(n)), String(text));
    EncodeAscii(CanonicalText(String(text)));
  }

  /** Twelve million written backspaces make an accepted document whose
      canonical form is refused for its size. */
  lemma CanonicalFormMayBeRefused()
    ensures exists document ::
              ParseJson(document).Some? && ParseJson(CanonicalText(ParseJson(document).value)).None?
  {
    var n := 12_000_000;
    BackspacesGrow(n);
    var document := Ascii(NodeBytes(Backspaces(n)));
    AsciiSpells(NodeBytes(Backspaces(n)));
    var v := String(BackspaceText(n));
    ScreenOnlyAddsBounds(document, v);
    assert ParseJson(document) == Some(v);
    CanonicalTooLarge(v);
  }

  lemma CanonicalTooLarge(v: JsonValue)
    requires |CanonicalBytes(v)| > MAX_RETAINED_BYTES
    ensures ParseJson(CanonicalText(v)).None?
  {}
}
