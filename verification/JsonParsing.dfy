/** The parser's functions accept exactly the grammar, with its meaning. */
module JsonParsing {
  import opened Wrappers
  import opened Utf8
  import opened Hexadecimal
  import opened JsonSyntax
  import opened JsonGrammar

  /** `s` stands in `b` at `i`. */
  predicate Sub(b: seq<byte>, i: nat, s: seq<byte>) {
    i + |s| <= |b| && b[i..i + |s|] == s
  }

  lemma SubSplit(b: seq<byte>, i: nat, x: seq<byte>, y: seq<byte>)
    ensures Sub(b, i, x + y) <==> Sub(b, i, x) && Sub(b, i + |x|, y)
    ensures Sub(b, i, x + y) ==> i + |x| + |y| <= |b|
  {
    if Sub(b, i, x + y) {
      assert b[i..i + |x|] == (x + y)[..|x|] == x;
      assert b[i + |x|..i + |x| + |y|] == (x + y)[|x|..] == y;
    }
    if Sub(b, i, x) && Sub(b, i + |x|, y) {
      assert b[i..i + |x + y|] == b[i..i + |x|] + b[i + |x|..i + |x| + |y|];
    }
  }

  lemma SubAt(b: seq<byte>, i: nat, s: seq<byte>, k: nat)
    requires Sub(b, i, s) && k < |s|
    ensures i + |s| <= |b| && b[i + k] == s[k]
  {
    assert b[i..i + |s|][k] == s[k];
  }

  // -----------------------------------------------------------------------
  // From trees to parses

  lemma {:induction false} SkipBlank(b: seq<byte>, i: nat, s: seq<byte>)
    requires Sub(b, i, s) && Blank(s)
    requires i + |s| == |b| || !Space(b[i + |s|])
    ensures SkipSpace(b, i) == i + |s|
    decreases |s|
  {
    if s != [] {
      SubAt(b, i, s, 0);
      assert s == s[..1] + s[1..];
      SubSplit(b, i, s[..1], s[1..]);
      SkipBlank(b, i + 1, s[1..]);
    }
  }

  lemma EncodedBytes(c: scalar)
    ensures c < 0x80 ==> EncodeScalar(c) == [c]
    ensures c >= 0x80 ==> EncodeScalar(c)[0] >= 0x80 && |EncodeScalar(c)| == Width(EncodeScalar(c)[0]) >= 2
  {
    DecodeEncode(c);
  }

  lemma TokenParse(b: seq<byte>, i: nat, t: CharToken)
    requires TokenOk(t) && Sub(b, i, TokenBytes(t))
    ensures i < |b| && b[i] != QUOTE
    ensures CharAt(b, i) == Some(Parsed(TokenChar(t), i + |TokenBytes(t)|))
  {
    SubAt(b, i, TokenBytes(t), 0);
    match t
    case Plain(c) =>
      EncodedBytes(c);
      DecodeEncode(c);
    case Short(letter) =>
      SubAt(b, i, TokenBytes(t), 1);
    case Hex(h0, h1, h2, h3) =>
      SubAt(b, i, TokenBytes(t), 1);
      SubAt(b, i, TokenBytes(t), 2);
      SubAt(b, i, TokenBytes(t), 3);
      SubAt(b, i, TokenBytes(t), 4);
      SubAt(b, i, TokenBytes(t), 5);
  }

  lemma {:induction false} BodyParse(b: seq<byte>, i: nat, ts: seq<CharToken>)
    requires TokensOk(ts) && Sub(b, i, TokensBytes(ts) + [QUOTE])
    ensures BodyAt(b, i) == Some(Parsed(TokensText(ts), i + |TokensBytes(ts)| + 1))
    decreases |ts|
  {
    hide Sub, CharAt, TokenBytes, TokenOk, TokenChar;
    SubSplit(b, i, TokensBytes(ts), [QUOTE]);
    if ts == [] {
      SubAt(b, i, [QUOTE], 0);
    } else {
      var rest := TokensBytes(ts[1..]) + [QUOTE];
      assert TokensBytes(ts) + [QUOTE] == TokenBytes(ts[0]) + rest;
      SubSplit(b, i, TokenBytes(ts[0]), rest);
      TokenParse(b, i, ts[0]);
      BodyParse(b, i + |TokenBytes(ts[0])|, ts[1..]);
    }
  }

  lemma QuotedParse(b: seq<byte>, i: nat, ts: seq<CharToken>)
    requires TokensOk(ts) && Sub(b, i, Quoted(ts))
    ensures At(b, i, QUOTE)
    ensures StringAt(b, i) == Some(Parsed(TokensText(ts), i + |Quoted(ts)|))
  {
    hide Sub, BodyAt;
    assert Quoted(ts) == [QUOTE] + (TokensBytes(ts) + [QUOTE]);
    SubSplit(b, i, [QUOTE], TokensBytes(ts) + [QUOTE]);
    SubAt(b, i, [QUOTE], 0);
    BodyParse(b, i + 1, ts);
  }

  lemma {:induction false} SkipDigitsParse(b: seq<byte>, i: nat, digits: seq<byte>)
    requires Sub(b, i, digits) && forall k :: 0 <= k < |digits| ==> Digit(digits[k])
    requires i + |digits| == |b| || !Digit(b[i + |digits|])
    ensures SkipDigits(b, i) == i + |digits|
    decreases |digits|
  {
    if digits != [] {
      SubAt(b, i, digits, 0);
      assert digits == digits[..1] + digits[1..];
      SubSplit(b, i, digits[..1], digits[1..]);
      SkipDigitsParse(b, i + 1, digits[1..]);
    }
  }

  lemma SubIsSlice(b: seq<byte>, i: nat, s: seq<byte>)
    requires Sub(b, i, s)
    ensures i + |s| <= |b| && b[i..i + |s|] == s
  {}

  /** What reading a tree of meaning `meaning` up to `end` must yield. */
  ghost function Read(meaning: Option<JsonValue>, end: nat): Option<Parsed<JsonValue>> {
    if meaning.None? then None else Some(Parsed(meaning.value, end))
  }

  lemma NumberParse(b: seq<byte>, i: nat, digits: seq<byte>)
    requires Sub(b, i, digits) && DigitsOk(digits)
    requires i + |digits| == |b| || !Digit(b[i + |digits|])
    ensures i < |b| && Digit(b[i])
    ensures NumberAt(b, i) == Read(Meaning(Num(digits)), i + |digits|)
  {
    hide Decimal, Sub, SkipDigits;
    SubAt(b, i, digits, 0);
    SkipDigitsParse(b, i, digits);
    SubIsSlice(b, i, digits);
  }

  /** What follows a node cannot be taken for part of it. */
  ghost predicate Ends(b: seq<byte>, i: nat) {
    i == |b| || (i < |b| && !Digit(b[i]))
  }

  lemma FirstByte(n: Cst)
    requires NodeOk(n)
    ensures NodeBytes(n) != [] && !Space(NodeBytes(n)[0])
    ensures NodeBytes(n)[0] != CLOSE_BRACKET && NodeBytes(n)[0] != CLOSE_BRACE
  {
    match n
    case Num(digits) => assert Digit(digits[0]);
    case _ =>
  }

  lemma WordParse(b: seq<byte>, i: nat, v: JsonValue)
    requires (v.Null? || v.Bool?) && Sub(b, i, WordBytes(v))
    ensures SkipSpace(b, i) == i && ValueAt(b, i) == Some(Parsed(v, i + |WordBytes(v)|))
  {
    SubAt(b, i, WordBytes(v), 0);
  }

  lemma {:induction false} NodeParse(b: seq<byte>, from: nat, before: seq<byte>, n: Cst)
    requires Blank(before) && NodeOk(n)
    requires Sub(b, from, before + NodeBytes(n)) && Ends(b, from + |before + NodeBytes(n)|)
    ensures ValueAt(b, from) == Read(Meaning(n), from + |before + NodeBytes(n)|)
    decreases n, 0
  {
    hide Sub, ArrayMeaning, ObjectMeaning, ItemsBytes, EntriesBytes, ElementsAt, MembersAt, StringAt, NumberAt, WordAt;
    hide DigitsOk, TokensOk, TokensText, TokensBytes, Decimal, SkipSpace, Space;
    SubSplit(b, from, before, NodeBytes(n));
    FirstByte(n);
    var i := from + |before|;
    SubAt(b, i, NodeBytes(n), 0);
    SkipBlank(b, from, before);
    SkipTwice(b, from);
    match n
    case Word(v) => WordParse(b, i, v);
    case Num(digits) => NumberParse(b, i, digits);
    case Str(tokens) => QuotedParse(b, i, tokens);
    case Arr(gap, items) => ArrayParse(b, i, gap, items);
    case Obj(gap, entries) => ObjectParse(b, i, gap, entries);
  }

  lemma SplitItems(b: seq<byte>, from: nat, items: seq<Item>, tail: seq<byte>)
    requires items != [] && Sub(b, from, ItemsBytes(items) + tail)
    ensures var end := from + |ItemBytes(items[0])|;
            && |ItemsBytes(items)| == |ItemBytes(items[0])| + (if |items| == 1 then 0 else 1 + |ItemsBytes(items[1..])|)
            && Sub(b, from, ItemBytes(items[0]))
            && if |items| == 1 then Sub(b, end, tail)
               else At(b, end, COMMA) && Sub(b, end + 1, ItemsBytes(items[1..]) + tail)
  {
    hide Sub, ItemBytes;
    var end := from + |ItemBytes(items[0])|;
    if |items| == 1 {
      assert ItemsBytes(items) == ItemBytes(items[0]);
      SubSplit(b, from, ItemBytes(items[0]), tail);
    } else {
      var rest := ItemsBytes(items[1..]) + tail;
      assert ItemsBytes(items) + tail == ItemBytes(items[0]) + ([COMMA] + rest);
      SubSplit(b, from, ItemBytes(items[0]), [COMMA] + rest);
      SubSplit(b, end, [COMMA], rest);
      SubAt(b, end, [COMMA], 0);
    }
  }

  /** The first item keeps its bracket away from the opening one. */
  lemma ItemStart(b: seq<byte>, from: nat, it: Item)
    requires Sub(b, from, ItemBytes(it)) && ItemOk(it)
    ensures from <= |b| && !At(b, SkipSpace(b, from), CLOSE_BRACKET)
  {
    hide Sub, NodeBytes, NodeOk;
    assert ItemBytes(it) == it.before + (NodeBytes(it.node) + it.after);
    SubSplit(b, from, it.before, NodeBytes(it.node) + it.after);
    SubSplit(b, from + |it.before|, NodeBytes(it.node), it.after);
    FirstByte(it.node);
    SubAt(b, from + |it.before|, NodeBytes(it.node), 0);
    SkipBlank(b, from, it.before);
  }

  lemma BracketSplit(b: seq<byte>, i: nat, open: byte, inner: seq<byte>, close: byte)
    requires Sub(b, i, [open] + inner + [close])
    ensures At(b, i, open) && Sub(b, i + 1, inner + [close]) && Sub(b, i + 1, inner)
    ensures i + 1 + |inner| < |b| && At(b, i + 1 + |inner|, close)
  {
    hide Sub;
    assert [open] + inner + [close] == [open] + (inner + [close]);
    SubSplit(b, i, [open], inner + [close]);
    SubSplit(b, i + 1, inner, [close]);
    SubAt(b, i, [open], 0);
    SubAt(b, i + 1 + |inner|, [close], 0);
  }

  lemma ElementsSkip(b: seq<byte>, from: nat, values: seq<JsonValue>)
    requires from <= |b|
    ensures ElementsAt(b, SkipSpace(b, from), values) == ElementsAt(b, from, values)
  {
    SkipTwice(b, from);
    assert ValueAt(b, SkipSpace(b, from)) == ValueAt(b, from);
  }

  lemma {:induction false} ArrayParse(b: seq<byte>, i: nat, gap: seq<byte>, items: seq<Item>)
    requires NodeOk(Arr(gap, items)) && Sub(b, i, NodeBytes(Arr(gap, items)))
    ensures ValueAt(b, i) == Read(Meaning(Arr(gap, items)), i + |NodeBytes(Arr(gap, items))|)
    decreases items, 2
  {
    hide Sub, ItemsBytes, ElementsAt, MembersAt, ItemBytes;
    BracketSplit(b, i, OPEN_BRACKET, if items == [] then gap else ItemsBytes(items), CLOSE_BRACKET);
    if items == [] {
      SkipBlank(b, i + 1, gap);
    } else {
      SplitItems(b, i + 1, items, [CLOSE_BRACKET]);
      assert ItemOk(items[0]);
      ItemStart(b, i + 1, items[0]);
      ItemsParse(b, i + 1, items, []);
      ElementsSkip(b, i + 1, []);
    }
  }

  lemma {:induction false} ItemsParse(b: seq<byte>, from: nat, items: seq<Item>, values: seq<JsonValue>)
    requires items != [] && forall k :: 0 <= k < |items| ==> ItemOk(items[k])
    requires Sub(b, from, ItemsBytes(items) + [CLOSE_BRACKET])
    ensures ElementsAt(b, from, values) == Read(ArrayMeaning(items, values), from + |ItemsBytes(items)| + 1)
    decreases items, 1
  {
    hide Sub, ItemsBytes, ValueAt, Meaning, ItemBytes;
    var it := items[0];
    assert ItemOk(it);
    SplitItems(b, from, items, [CLOSE_BRACKET]);
    var end := from + |ItemBytes(it)|;
    if |items| == 1 {
      SubAt(b, end, [CLOSE_BRACKET], 0);
      ItemParse(b, from, it);
      assert items[1..] == [];
    } else {
      ItemParse(b, from, it);
      if Meaning(it.node).None? {
        return;
      }
      ItemsParse(b, end + 1, items[1..], values + [Meaning(it.node).value]);
    }
  }

  /** A value with blanks around it, before something that is neither blank nor digit. */
  lemma {:induction false} ItemParse(b: seq<byte>, from: nat, it: Item)
    requires ItemOk(it) && Sub(b, from, ItemBytes(it))
    requires from + |ItemBytes(it)| == |b| || (!Space(b[from + |ItemBytes(it)|]) && !Digit(b[from + |ItemBytes(it)|]))
    ensures ValueAt(b, from).Some? <==> Meaning(it.node).Some?
    ensures ValueAt(b, from).Some? ==> ValueAt(b, from).value.value == Meaning(it.node).value
    ensures ValueAt(b, from).Some? ==> SkipSpace(b, ValueAt(b, from).value.end) == from + |ItemBytes(it)|
    decreases it, 1
  {
    hide Sub, ValueAt, Meaning, NodeOk, NodeBytes;
    var front := it.before + NodeBytes(it.node);
    SubSplit(b, from, front, it.after);
    var end := from + |front|;
    if it.after != [] {
      SubAt(b, end, it.after, 0);
      assert Space(it.after[0]);
    }
    NodeParse(b, from, it.before, it.node);
    SkipBlank(b, end, it.after);
  }

  lemma SplitEntries(b: seq<byte>, from: nat, entries: seq<Entry>, tail: seq<byte>)
    requires entries != [] && Sub(b, from, EntriesBytes(entries) + tail)
    ensures var end := from + |EntryBytes(entries[0])|;
            && |EntriesBytes(entries)| ==
                 |EntryBytes(entries[0])| + (if |entries| == 1 then 0 else 1 + |EntriesBytes(entries[1..])|)
            && Sub(b, from, EntryBytes(entries[0]))
            && if |entries| == 1 then Sub(b, end, tail)
               else At(b, end, COMMA) && Sub(b, end + 1, EntriesBytes(entries[1..]) + tail)
  {
    hide Sub, EntryBytes;
    var end := from + |EntryBytes(entries[0])|;
    if |entries| == 1 {
      assert EntriesBytes(entries) == EntryBytes(entries[0]);
      SubSplit(b, from, EntryBytes(entries[0]), tail);
    } else {
      var rest := EntriesBytes(entries[1..]) + tail;
      assert EntriesBytes(entries) + tail == EntryBytes(entries[0]) + ([COMMA] + rest);
      SubSplit(b, from, EntryBytes(entries[0]), [COMMA] + rest);
      SubSplit(b, end, [COMMA], rest);
      SubAt(b, end, [COMMA], 0);
    }
  }

  /** Where the parts of an entry stand. */
  lemma SplitEntry(b: seq<byte>, from: nat, e: Entry)
    requires Sub(b, from, EntryBytes(e))
    ensures var key := from + |e.lead|;
            var gap := key + |Quoted(e.key)|;
            var colon := gap + |e.beforeColon|;
            && Sub(b, from, e.lead) && Sub(b, key, Quoted(e.key)) && Sub(b, gap, e.beforeColon)
            && At(b, colon, COLON) && Sub(b, colon + 1, ItemBytes(e.item))
            && from + |EntryBytes(e)| == colon + 1 + |ItemBytes(e.item)| <= |b|
  {
    hide Sub, Quoted, ItemBytes;
    var r3 := [COLON] + ItemBytes(e.item);
    var r2 := e.beforeColon + r3;
    var r1 := Quoted(e.key) + r2;
    assert EntryBytes(e) == e.lead + r1;
    SubSplit(b, from, e.lead, r1);
    SubSplit(b, from + |e.lead|, Quoted(e.key), r2);
    SubSplit(b, from + |e.lead| + |Quoted(e.key)|, e.beforeColon, r3);
    var colon := from + |e.lead| + |Quoted(e.key)| + |e.beforeColon|;
    SubSplit(b, colon, [COLON], ItemBytes(e.item));
    SubAt(b, colon, [COLON], 0);
  }

  lemma EntryKey(b: seq<byte>, from: nat, e: Entry)
    requires Sub(b, from, EntryBytes(e)) && Blank(e.lead) && TokensOk(e.key)
    ensures from <= |b| && !At(b, SkipSpace(b, from), CLOSE_BRACE)
    ensures StringAt(b, SkipSpace(b, from)) == Some(Parsed(TokensText(e.key), from + |e.lead| + |Quoted(e.key)|))
  {
    hide Sub, Quoted, EntryBytes, StringAt;
    SplitEntry(b, from, e);
    QuotedParse(b, from + |e.lead|, e.key);
    SkipBlank(b, from, e.lead);
  }

  lemma MembersSkip(b: seq<byte>, from: nat, members: seq<Member>)
    requires from <= |b|
    ensures MembersAt(b, SkipSpace(b, from), members) == MembersAt(b, from, members)
  {
    hide HasKey, Insert, ValueAt, StringAt;
    SkipTwice(b, from);
    assert MemberAt(b, SkipSpace(b, from)) == MemberAt(b, from);
  }

  lemma {:induction false} ObjectParse(b: seq<byte>, i: nat, gap: seq<byte>, entries: seq<Entry>)
    requires NodeOk(Obj(gap, entries)) && Sub(b, i, NodeBytes(Obj(gap, entries)))
    ensures ValueAt(b, i) == Read(Meaning(Obj(gap, entries)), i + |NodeBytes(Obj(gap, entries))|)
    decreases entries, 2
  {
    hide Sub, EntriesBytes, ElementsAt, MembersAt, EntryBytes, StringAt, NumberAt, WordAt, ArrayMeaning;
    BracketSplit(b, i, OPEN_BRACE, if entries == [] then gap else EntriesBytes(entries), CLOSE_BRACE);
    if entries == [] {
      SkipBlank(b, i + 1, gap);
    } else {
      SplitEntries(b, i + 1, entries, [CLOSE_BRACE]);
      assert EntryOk(entries[0]);
      EntryKey(b, i + 1, entries[0]);
      EntriesParse(b, i + 1, entries, []);
      MembersSkip(b, i + 1, []);
    }
  }

  lemma {:induction false} EntryParse(b: seq<byte>, from: nat, e: Entry)
    requires EntryOk(e) && ItemOk(e.item) && Sub(b, from, EntryBytes(e))
    requires from + |EntryBytes(e)| == |b| || (!Space(b[from + |EntryBytes(e)|]) && !Digit(b[from + |EntryBytes(e)|]))
    ensures var v := Meaning(e.item.node);
            MemberAt(b, from) == if v.None? then None
                                 else Some(Parsed(Member(TokensText(e.key), v.value), from + |EntryBytes(e)|))
    decreases e, 1
  {
    hide Sub, ValueAt, Meaning, StringAt, EntryBytes, Quoted, ItemBytes;
    SplitEntry(b, from, e);
    EntryKey(b, from, e);
    SkipBlank(b, from + |e.lead| + |Quoted(e.key)|, e.beforeColon);
    ItemParse(b, from + |e.lead| + |Quoted(e.key)| + |e.beforeColon| + 1, e.item);
  }

  lemma {:induction false} EntriesParse(b: seq<byte>, from: nat, entries: seq<Entry>, members: seq<Member>)
    requires entries != [] && forall k :: 0 <= k < |entries| ==> EntryOk(entries[k])
    requires Sub(b, from, EntriesBytes(entries) + [CLOSE_BRACE])
    ensures MembersAt(b, from, members) == Read(ObjectMeaning(entries, members), from + |EntriesBytes(entries)| + 1)
    decreases entries, 1
  {
    hide Sub, EntriesBytes, MemberAt, Meaning, EntryBytes, Insert, HasKey, TokensText;
    var e := entries[0];
    assert EntryOk(e) && ItemOk(e.item);
    SplitEntries(b, from, entries, [CLOSE_BRACE]);
    var end := from + |EntryBytes(e)|;
    if |entries| == 1 {
      SubAt(b, end, [CLOSE_BRACE], 0);
      EntryParse(b, from, e);
      assert entries[1..] == [];
    } else {
      EntryParse(b, from, e);
      if Meaning(e.item.node).None? || HasKey(members, TokensText(e.key)) {
        return;
      }
      EntriesParse(b, end + 1, entries[1..], Insert(members, TokensText(e.key), Meaning(e.item.node).value));
    }
  }

  // -----------------------------------------------------------------------
  // From parses to trees

  lemma BlankFrom(b: seq<byte>, i: nat) returns (s: seq<byte>)
    requires i <= |b|
    ensures Blank(s) && Sub(b, i, s) && i + |s| == SkipSpace(b, i)
  {
    s := b[i..SkipSpace(b, i)];
  }

  lemma CharFrom(b: seq<byte>, i: nat) returns (t: CharToken)
    requires i < |b| && b[i] != QUOTE && CharAt(b, i).Some?
    ensures TokenOk(t) && TokenChar(t) == CharAt(b, i).value.value
    ensures Sub(b, i, TokenBytes(t)) && CharAt(b, i).value.end == i + |TokenBytes(t)|
  {
    if b[i] == BACKSLASH {
      if b[i + 1] == 0x75 {
        t := Hex(b[i + 2], b[i + 3], b[i + 4], b[i + 5]);
        assert b[i..i + 6] == TokenBytes(t);
      } else {
        t := Short(b[i + 1]);
        assert b[i..i + 2] == TokenBytes(t);
      }
    } else if b[i] < 0x80 {
      t := Plain(b[i]);
      assert b[i..i + 1] == TokenBytes(t);
    } else {
      var wide := b[i..i + Width(b[i])];
      t := Plain(DecodeScalar(wide));
      EncodeDecode(wide);
      EncodedBytes(DecodeScalar(wide));
    }
  }

  lemma {:induction false} BodyFrom(b: seq<byte>, i: nat) returns (ts: seq<CharToken>)
    requires BodyAt(b, i).Some?
    ensures TokensOk(ts) && TokensText(ts) == BodyAt(b, i).value.value
    ensures Sub(b, i, TokensBytes(ts) + [QUOTE]) && BodyAt(b, i).value.end == i + |TokensBytes(ts)| + 1
    decreases |b| - i
  {
    hide CharAt, TokenBytes, TokenOk, TokenChar;
    if b[i] == QUOTE {
      ts := [];
      assert b[i..i + 1] == TokensBytes(ts) + [QUOTE];
    } else {
      var t := CharFrom(b, i);
      var rest := BodyFrom(b, CharAt(b, i).value.end);
      ts := [t] + rest;
      assert ts[1..] == rest;
      SubSplit(b, i, TokenBytes(t), TokensBytes(rest) + [QUOTE]);
      assert TokensBytes(ts) + [QUOTE] == TokenBytes(t) + (TokensBytes(rest) + [QUOTE]);
    }
  }

  lemma QuotedFrom(b: seq<byte>, i: nat) returns (ts: seq<CharToken>)
    requires StringAt(b, i).Some?
    ensures TokensOk(ts) && TokensText(ts) == StringAt(b, i).value.value
    ensures Sub(b, i, Quoted(ts)) && StringAt(b, i).value.end == i + |Quoted(ts)|
  {
    ts := BodyFrom(b, i + 1);
    assert Sub(b, i, [QUOTE]) by { assert b[i..i + 1] == [QUOTE]; }
    SubSplit(b, i, [QUOTE], TokensBytes(ts) + [QUOTE]);
    assert Quoted(ts) == [QUOTE] + (TokensBytes(ts) + [QUOTE]);
  }

  lemma NumberFrom(b: seq<byte>, i: nat) returns (digits: seq<byte>)
    requires i < |b| && Digit(b[i]) && NumberAt(b, i).Some?
    ensures DigitsOk(digits) && Sub(b, i, digits) && Decimal(digits) <= MAX_U64
    ensures NumberAt(b, i) == Some(Parsed(Number(Decimal(digits)), i + |digits|))
  {
    digits := b[i..if b[i] == 0x30 then i + 1 else SkipDigits(b, i)];
  }

  lemma BracketJoin(b: seq<byte>, i: nat, open: byte, inner: seq<byte>, close: byte)
    requires At(b, i, open) && Sub(b, i + 1, inner + [close])
    ensures Sub(b, i, [open] + inner + [close])
  {
    hide Sub;
    OneByte(b, i, open);
    SubSplit(b, i, [open], inner + [close]);
    assert [open] + inner + [close] == [open] + (inner + [close]);
  }

  lemma OneByte(b: seq<byte>, i: nat, c: byte)
    requires At(b, i, c)
    ensures Sub(b, i, [c])
  {
    assert b[i..i + 1] == [c];
  }

  lemma {:induction false} NodeFrom(b: seq<byte>, from: nat) returns (before: seq<byte>, n: Cst)
    requires from <= |b| && ValueAt(b, from).Some?
    ensures Blank(before) && NodeOk(n) && Meaning(n) == Some(ValueAt(b, from).value.value)
    ensures Sub(b, from, before + NodeBytes(n)) && ValueAt(b, from).value.end == from + |before + NodeBytes(n)|
    decreases |b| - from, 2
  {
    hide Sub, ElementsAt, MembersAt, StringAt, NumberAt, ItemsBytes, EntriesBytes, ArrayMeaning, ObjectMeaning;
    hide TokensBytes;
    before := BlankFrom(b, from);
    var i := SkipSpace(b, from);
    if b[i] == OPEN_BRACE {
      n := ObjectFrom(b, i);
    } else if b[i] == OPEN_BRACKET {
      n := ArrayFrom(b, i);
    } else if b[i] == QUOTE {
      var ts := QuotedFrom(b, i);
      n := Str(ts);
    } else if Digit(b[i]) {
      var digits := NumberFrom(b, i);
      n := Num(digits);
    } else {
      n := WordFrom(b, i);
    }
    SubSplit(b, from, before, NodeBytes(n));
  }

  lemma WordFrom(b: seq<byte>, i: nat) returns (n: Cst)
    requires i < |b| && (b[i] == 0x74 || b[i] == 0x66 || b[i] == 0x6E) && ValueAt(b, i).Some?
    ensures n.Word? && NodeOk(n) && n.value == ValueAt(b, i).value.value
    ensures Sub(b, i, NodeBytes(n)) && ValueAt(b, i).value.end == i + |NodeBytes(n)|
  {
    n := Word(ValueAt(b, i).value.value);
  }

  lemma {:induction false} ArrayFrom(b: seq<byte>, i: nat) returns (n: Cst)
    requires At(b, i, OPEN_BRACKET) && ValueAt(b, i).Some?
    ensures NodeOk(n) && Meaning(n) == Some(ValueAt(b, i).value.value)
    ensures Sub(b, i, NodeBytes(n)) && ValueAt(b, i).value.end == i + |NodeBytes(n)|
    decreases |b| - i, 1
  {
    hide Sub, ElementsAt, MembersAt, StringAt, ItemsBytes;
    var gap := BlankFrom(b, i + 1);
    var j := SkipSpace(b, i + 1);
    if At(b, j, CLOSE_BRACKET) {
      OneByte(b, j, CLOSE_BRACKET);
      SubSplit(b, i + 1, gap, [CLOSE_BRACKET]);
      BracketJoin(b, i, OPEN_BRACKET, gap, CLOSE_BRACKET);
      n := Arr(gap, []);
    } else {
      ElementsSkip(b, i + 1, []);
      var items := ElementsFrom(b, i + 1, []);
      BracketJoin(b, i, OPEN_BRACKET, ItemsBytes(items), CLOSE_BRACKET);
      n := Arr([], items);
    }
  }

  /** A parsed value and the blanks after it, as an item. */
  lemma {:induction false} ItemFrom(b: seq<byte>, from: nat) returns (it: Item)
    requires from <= |b| && ValueAt(b, from).Some?
    ensures ItemOk(it) && Meaning(it.node) == Some(ValueAt(b, from).value.value)
    ensures Sub(b, from, ItemBytes(it)) && SkipSpace(b, ValueAt(b, from).value.end) == from + |ItemBytes(it)|
    decreases |b| - from, 3
  {
    hide Sub, ValueAt, NodeOk, NodeBytes, Meaning;
    var before, n := NodeFrom(b, from);
    var after := BlankFrom(b, ValueAt(b, from).value.end);
    it := Item(before, n, after);
    SubSplit(b, from, before + NodeBytes(n), after);
  }

  lemma {:induction false} ElementsFrom(b: seq<byte>, from: nat, values: seq<JsonValue>) returns (items: seq<Item>)
    requires from <= |b| && ElementsAt(b, from, values).Some?
    ensures items != [] && forall k :: 0 <= k < |items| ==> ItemOk(items[k])
    ensures ArrayMeaning(items, values) == Some(ElementsAt(b, from, values).value.value)
    ensures Sub(b, from, ItemsBytes(items) + [CLOSE_BRACKET])
    ensures ElementsAt(b, from, values).value.end == from + |ItemsBytes(items)| + 1
    decreases |b| - from, 4
  {
    hide Sub, ValueAt, Meaning, ItemBytes, ItemOk;
    var it := ItemFrom(b, from);
    var end := from + |ItemBytes(it)|;
    if At(b, end, CLOSE_BRACKET) {
      items := [it];
      OneByte(b, end, CLOSE_BRACKET);
      SubSplit(b, from, ItemBytes(it), [CLOSE_BRACKET]);
      assert ItemsBytes(items) == ItemBytes(it) && items[1..] == [];
    } else {
      var rest := ElementsFrom(b, end + 1, values + [ValueAt(b, from).value.value]);
      items := [it] + rest;
      assert items[1..] == rest;
      OneByte(b, end, COMMA);
      var tail := ItemsBytes(rest) + [CLOSE_BRACKET];
      SubSplit(b, end, [COMMA], tail);
      SubSplit(b, from, ItemBytes(it), [COMMA] + tail);
      assert ItemsBytes(items) + [CLOSE_BRACKET] == ItemBytes(it) + ([COMMA] + tail);
    }
  }

  lemma {:induction false} ObjectFrom(b: seq<byte>, i: nat) returns (n: Cst)
    requires At(b, i, OPEN_BRACE) && ValueAt(b, i).Some?
    ensures NodeOk(n) && Meaning(n) == Some(ValueAt(b, i).value.value)
    ensures Sub(b, i, NodeBytes(n)) && ValueAt(b, i).value.end == i + |NodeBytes(n)|
    decreases |b| - i, 1
  {
    hide Sub, ElementsAt, MembersAt, StringAt, EntriesBytes;
    var gap := BlankFrom(b, i + 1);
    var j := SkipSpace(b, i + 1);
    if At(b, j, CLOSE_BRACE) {
      OneByte(b, j, CLOSE_BRACE);
      SubSplit(b, i + 1, gap, [CLOSE_BRACE]);
      BracketJoin(b, i, OPEN_BRACE, gap, CLOSE_BRACE);
      n := Obj(gap, []);
    } else {
      MembersSkip(b, i + 1, []);
      var entries := MembersFrom(b, i + 1, []);
      BracketJoin(b, i, OPEN_BRACE, EntriesBytes(entries), CLOSE_BRACE);
      n := Obj([], entries);
    }
  }

  lemma {:induction false} EntryFrom(b: seq<byte>, from: nat) returns (e: Entry)
    requires from <= |b| && MemberAt(b, from).Some?
    ensures EntryOk(e) && ItemOk(e.item)
    ensures Meaning(e.item.node).Some?
    ensures Member(TokensText(e.key), Meaning(e.item.node).value) == MemberAt(b, from).value.value
    ensures Sub(b, from, EntryBytes(e)) && MemberAt(b, from).value.end == from + |EntryBytes(e)|
    decreases |b| - from, 0
  {
    hide Sub, ValueAt, StringAt, Meaning, ItemBytes, TokensText, Quoted;
    var lead := BlankFrom(b, from);
    var i := SkipSpace(b, from);
    var key := QuotedFrom(b, i);
    var beforeColon := BlankFrom(b, StringAt(b, i).value.end);
    var colon := SkipSpace(b, StringAt(b, i).value.end);
    var it := ItemFrom(b, colon + 1);
    e := Entry(lead, key, beforeColon, it);
    OneByte(b, colon, COLON);
    SubSplit(b, colon, [COLON], ItemBytes(it));
    SubSplit(b, i + |Quoted(key)|, beforeColon, [COLON] + ItemBytes(it));
    SubSplit(b, i, Quoted(key), beforeColon + ([COLON] + ItemBytes(it)));
    SubSplit(b, from, lead, Quoted(key) + (beforeColon + ([COLON] + ItemBytes(it))));
    assert EntryBytes(e) == lead + (Quoted(key) + (beforeColon + ([COLON] + ItemBytes(it))));
  }

  lemma {:induction false} MembersFrom(b: seq<byte>, from: nat, members: seq<Member>) returns (entries: seq<Entry>)
    requires from <= |b| && MembersAt(b, from, members).Some?
    ensures entries != [] && forall k :: 0 <= k < |entries| ==> EntryOk(entries[k])
    ensures ObjectMeaning(entries, members) == Some(MembersAt(b, from, members).value.value)
    ensures Sub(b, from, EntriesBytes(entries) + [CLOSE_BRACE])
    ensures MembersAt(b, from, members).value.end == from + |EntriesBytes(entries)| + 1
    decreases |b| - from, 1
  {
    hide Sub, MemberAt, Meaning, EntryBytes, EntryOk, HasKey, Insert, TokensText, NodeOk;
    var e := EntryFrom(b, from);
    var m := MemberAt(b, from).value.value;
    var end := from + |EntryBytes(e)|;
    if At(b, end, CLOSE_BRACE) {
      entries := [e];
      OneByte(b, end, CLOSE_BRACE);
      SubSplit(b, from, EntryBytes(e), [CLOSE_BRACE]);
      assert EntriesBytes(entries) == EntryBytes(e) && entries[1..] == [];
    } else {
      var rest := MembersFrom(b, end + 1, Insert(members, m.key, m.value));
      entries := [e] + rest;
      assert entries[1..] == rest;
      OneByte(b, end, COMMA);
      var tail := EntriesBytes(rest) + [CLOSE_BRACE];
      SubSplit(b, end, [COMMA], tail);
      SubSplit(b, from, EntryBytes(e), [COMMA] + tail);
      assert EntriesBytes(entries) + [CLOSE_BRACE] == EntryBytes(e) + ([COMMA] + tail);
    }
  }

  // -----------------------------------------------------------------------
  // Documents

  /** The parser yields the meaning of whatever tree spells the document, and
      nothing when that tree has none: spellings are not ambiguous. */
  lemma DocumentParse(doc: Item)
    requires ItemOk(doc)
    ensures ParseAlone(ItemBytes(doc)) == Meaning(doc.node)
  {
    hide ValueAt, Meaning, ItemBytes, NodeOk, SkipSpace;
    var b := ItemBytes(doc);
    assert b[0..|b|] == b;
    ItemParse(b, 0, doc);
  }

  /** The parser decides the grammar: it yields `v` exactly for the documents
      that some syntax tree of meaning `v` spells. */
  lemma ParserDecidesGrammar(b: seq<byte>, v: JsonValue)
    ensures ParseAlone(b) == Some(v) <==>
              exists doc: Item :: ItemOk(doc) && ItemBytes(doc) == b && Meaning(doc.node) == Some(v)
  {
    hide ValueAt, Meaning, ItemBytes, NodeOk, SkipSpace;
    if ParseAlone(b) == Some(v) {
      var doc := ItemFrom(b, 0);
      assert b[0..|b|] == b;
    }
    if doc: Item :| ItemOk(doc) && ItemBytes(doc) == b && Meaning(doc.node) == Some(v) {
      DocumentParse(doc);
    }
  }
}
