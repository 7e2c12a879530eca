/** The bounded structural pre-screen of `fuzz_surfaces.rs`, and its relation to
    the parser: on documents the parser accepts it only adds the bounds. */
module JsonScreen {
  import opened Wrappers
  import opened Utf8
  import opened Hexadecimal
  import opened JsonSyntax
  import opened JsonGrammar
  import opened JsonParsing

  const MAX_RETAINED_BYTES: nat := 64 * 1024 * 1024
  const MAX_DEPTH: nat := 256

  /** One-letter escapes, as the screen lists them. */
  predicate SimpleLetter(b: byte) {
    b == QUOTE || b == BACKSLASH || b == SLASH || b == 0x62 || b == 0x66 || b == 0x6E || b == 0x72 || b == 0x74
  }

  predicate FourHex(b: seq<byte>, i: nat) {
    i + 4 <= |b| && HexDigit(b[i]) && HexDigit(b[i + 1]) && HexDigit(b[i + 2]) && HexDigit(b[i + 3])
  }

  /** The closing quote of a string whose rest starts at `i`, undecoded. */
  function RawEnd(b: seq<byte>, i: nat, escaped: bool): (r: Option<nat>)
    ensures r.Some? ==> i < r.value <= |b|
    decreases |b| - i
  {
    if i >= |b| then None
    else if b[i] == QUOTE && !escaped then Some(i + 1)
    else if b[i] == BACKSLASH && !escaped then RawEnd(b, i + 1, true)
    else if escaped && SimpleLetter(b[i]) then RawEnd(b, i + 1, false)
    else if escaped && b[i] == 0x75 then (if FourHex(b, i + 1) then RawEnd(b, i + 5, false) else None)
    else if escaped || b[i] < 0x20 then None
    else RawEnd(b, i + 1, false)
  }

  function RawStringAt(b: seq<byte>, i: nat): (r: Option<Parsed<seq<byte>>>)
    ensures r.Some? ==> i + 1 < r.value.end <= |b|
  {
    if !At(b, i, QUOTE) then None
    else
      var end := RawEnd(b, i + 1, false);
      if end.None? || FromUtf8(b[i + 1..end.value - 1]).None? then None
      else Some(Parsed(b[i + 1..end.value - 1], end.value))
  }

  function ScreenWord(b: seq<byte>, i: nat, word: seq<byte>): (r: Option<nat>)
    ensures r.Some? ==> r.value == i + |word| <= |b|
  {
    if i + |word| <= |b| && b[i..i + |word|] == word then Some(i + |word|) else None
  }

  function ScreenValue(b: seq<byte>, from: nat, depth: nat): (r: Option<nat>)
    requires from <= |b|
    ensures r.Some? ==> from < r.value <= |b|
    decreases |b| - from, 2
  {
    if depth > MAX_DEPTH then None
    else
      var i := SkipSpace(b, from);
      if i == |b| then None
      else if b[i] == OPEN_BRACE then
        var j := SkipSpace(b, i + 1);
        if At(b, j, CLOSE_BRACE) then Some(j + 1) else ScreenMembers(b, j, depth + 1, {})
      else if b[i] == OPEN_BRACKET then
        var j := SkipSpace(b, i + 1);
        if At(b, j, CLOSE_BRACKET) then Some(j + 1) else ScreenElements(b, j, depth + 1)
      else if b[i] == QUOTE then
        var s := RawStringAt(b, i);
        if s.None? then None else Some(s.value.end)
      else if b[i] == 0x74 then ScreenWord(b, i, TRUE_WORD)
      else if b[i] == 0x66 then ScreenWord(b, i, FALSE_WORD)
      else if b[i] == 0x6E then ScreenWord(b, i, NULL_WORD)
      else if Digit(b[i]) then
        var n := NumberAt(b, i);
        if n.None? then None else Some(n.value.end)
      else None
  }

  /** One member up to the blank after its value: its raw key and the end. */
  function ScreenMember(b: seq<byte>, from: nat, depth: nat): (r: Option<Parsed<seq<byte>>>)
    requires from <= |b|
    ensures r.Some? ==> from < r.value.end <= |b|
    decreases |b| - from, 0
  {
    var key := RawStringAt(b, SkipSpace(b, from));
    if key.None? then None
    else
      var colon := SkipSpace(b, key.value.end);
      if !At(b, colon, COLON) then None
      else
        var end := ScreenValue(b, colon + 1, depth);
        if end.None? then None else Some(Parsed(key.value.value, SkipSpace(b, end.value)))
  }

  function ScreenMembers(b: seq<byte>, from: nat, depth: nat, keys: set<seq<byte>>): (r: Option<nat>)
    requires from <= |b|
    ensures r.Some? ==> from < r.value <= |b|
    decreases |b| - from, 1
  {
    var m := ScreenMember(b, from, depth);
    if m.None? || m.value.value in keys then None
    else
      var i := m.value.end;
      if At(b, i, CLOSE_BRACE) then Some(i + 1)
      else if At(b, i, COMMA) then ScreenMembers(b, i + 1, depth, keys + {m.value.value})
      else None
  }

  function ScreenElements(b: seq<byte>, from: nat, depth: nat): (r: Option<nat>)
    requires from <= |b|
    ensures r.Some? ==> from < r.value <= |b|
    decreases |b| - from, 3
  {
    var end := ScreenValue(b, from, depth);
    if end.None? then None
    else
      var i := SkipSpace(b, end.value);
      if At(b, i, CLOSE_BRACKET) then Some(i + 1)
      else if At(b, i, COMMA) then ScreenElements(b, i + 1, depth)
      else None
  }

  /** The admission check: size, UTF-8, no NUL, well-formed structure. */
  function StrictRecord(bytes: seq<byte>): Option<Text> {
    var document := FromUtf8(bytes);
    var end := ScreenValue(bytes, 0, 0);
    if |bytes| <= MAX_RETAINED_BYTES && document.Some? && 0 !in bytes
      && end.Some? && SkipSpace(bytes, end.value) == |bytes|
    then document else None
  }

  /** `parse_json`: the screen first, then the parser on what it returned. */
  function ParseJson(document: Text): Option<JsonValue> {
    var admitted := StrictRecord(Encode(document));
    if admitted.None? then None else ParseAlone(Encode(admitted.value))
  }

  // -----------------------------------------------------------------------
  // Nesting

  /** How many containers enclose the most deeply enclosed value inside `v`. */
  ghost function Nesting(v: JsonValue): nat {
    match v
    case Array(values) => DeepestOf(values)
    case Object(members) => DeepestIn(members)
    case _ => 0
  }

  ghost function DeepestOf(values: seq<JsonValue>): (n: nat)
    ensures forall i :: 0 <= i < |values| ==> n >= 1 + Nesting(values[i])
    ensures values == [] <==> n == 0
  {
    if values == [] then 0
    else
      var rest, first := DeepestOf(values[1..]), 1 + Nesting(values[0]);
      if first > rest then first else rest
  }

  ghost function DeepestIn(members: seq<Member>): (n: nat)
    ensures forall i :: 0 <= i < |members| ==> n >= 1 + Nesting(members[i].value)
    ensures members == [] <==> n == 0
  {
    if members == [] then 0
    else
      var rest, first := DeepestIn(members[1..]), 1 + Nesting(members[0].value);
      if first > rest then first else rest
  }

  /** All values, placed at `depth`, stay within the bound. */
  ghost predicate Fit(values: seq<JsonValue>, depth: nat) {
    forall i :: 0 <= i < |values| ==> depth + Nesting(values[i]) <= MAX_DEPTH
  }

  ghost predicate MembersFit(members: seq<Member>, depth: nat) {
    forall i :: 0 <= i < |members| ==> depth + Nesting(members[i].value) <= MAX_DEPTH
  }

  lemma {:induction false} FitIsDeepest(values: seq<JsonValue>, depth: nat)
    ensures Fit(values, depth + 1) <==> values == [] || depth + DeepestOf(values) <= MAX_DEPTH
  {
    if values != [] {
      FitIsDeepest(values[1..], depth);
      assert forall i :: 0 <= i < |values| ==> values[i] == if i == 0 then values[0] else values[1..][i - 1];
      assert Fit(values, depth + 1) <==> depth + 1 + Nesting(values[0]) <= MAX_DEPTH && Fit(values[1..], depth + 1);
    }
  }

  lemma {:induction false} MembersFitIsDeepest(members: seq<Member>, depth: nat)
    ensures MembersFit(members, depth + 1) <==> members == [] || depth + DeepestIn(members) <= MAX_DEPTH
  {
    if members != [] {
      MembersFitIsDeepest(members[1..], depth);
      assert forall i :: 0 <= i < |members| ==> members[i] == if i == 0 then members[0] else members[1..][i - 1];
      assert MembersFit(members, depth + 1) <==>
          depth + 1 + Nesting(members[0].value) <= MAX_DEPTH && MembersFit(members[1..], depth + 1);
    }
  }

  lemma {:induction false} InsertFits(members: seq<Member>, key: Text, v: JsonValue, depth: nat)
    ensures MembersFit(Insert(members, key, v), depth) <==>
              MembersFit(members, depth) && depth + Nesting(v) <= MAX_DEPTH
  {
    var r := Insert(members, key, v);
    if members == [] || Less(key, members[0].key) {
      assert forall i :: 0 <= i < |members| ==> r[i + 1] == members[i];
      assert r[0].value == v;
    } else {
      InsertFits(members[1..], key, v, depth);
      assert r[1..] == Insert(members[1..], key, v) && r[0] == members[0];
      assert MembersFit(r, depth) <==> depth + Nesting(r[0].value) <= MAX_DEPTH && MembersFit(r[1..], depth) by {
        assert forall i :: 0 <= i < |r| ==> r[i] == if i == 0 then r[0] else r[1..][i - 1];
      }
      assert MembersFit(members, depth) <==>
          depth + Nesting(members[0].value) <= MAX_DEPTH && MembersFit(members[1..], depth) by {
        assert forall i :: 0 <= i < |members| ==> members[i] == if i == 0 then members[0] else members[1..][i - 1];
      }
    }
  }

  // -----------------------------------------------------------------------
  // Strings: what the parser decodes, the screen delimits

  lemma {:induction false} PassBytes(b: seq<byte>, i: nat, s: seq<byte>)
    requires Sub(b, i, s) && forall k :: 0 <= k < |s| ==> s[k] >= 0x20 && s[k] != QUOTE && s[k] != BACKSLASH
    ensures RawEnd(b, i, false) == RawEnd(b, i + |s|, false)
    decreases |s|
  {
    if s != [] {
      SubAt(b, i, s, 0);
      assert s == s[..1] + s[1..];
      SubSplit(b, i, s[..1], s[1..]);
      PassBytes(b, i + 1, s[1..]);
    }
  }

  lemma PlainBytes(c: scalar)
    requires c >= 0x20 && c != QUOTE && c != BACKSLASH
    ensures forall k :: 0 <= k < |EncodeScalar(c)| ==>
              EncodeScalar(c)[k] >= 0x20 && EncodeScalar(c)[k] != QUOTE && EncodeScalar(c)[k] != BACKSLASH
  {
    DecodeEncode(c);
  }

  lemma RawToken(b: seq<byte>, i: nat, t: CharToken)
    requires TokenOk(t) && Sub(b, i, TokenBytes(t))
    ensures RawEnd(b, i, false) == RawEnd(b, i + |TokenBytes(t)|, false)
  {
    match t
    case Plain(c) =>
      PlainBytes(c);
      PassBytes(b, i, TokenBytes(t));
    case Short(letter) =>
      SubAt(b, i, TokenBytes(t), 0);
      SubAt(b, i, TokenBytes(t), 1);
    case Hex(h0, h1, h2, h3) =>
      SubAt(b, i, TokenBytes(t), 0);
      SubAt(b, i, TokenBytes(t), 1);
      SubAt(b, i, TokenBytes(t), 2);
      SubAt(b, i, TokenBytes(t), 3);
      SubAt(b, i, TokenBytes(t), 4);
      SubAt(b, i, TokenBytes(t), 5);
  }

  lemma {:induction false} RawTokens(b: seq<byte>, i: nat, ts: seq<CharToken>)
    requires TokensOk(ts) && Sub(b, i, TokensBytes(ts) + [QUOTE])
    ensures RawEnd(b, i, false) == Some(i + |TokensBytes(ts)| + 1)
    decreases |ts|
  {
    hide TokenOk, TokenBytes, Sub;
    if ts == [] {
      assert TokensBytes(ts) + [QUOTE] == [QUOTE];
      SubAt(b, i, [QUOTE], 0);
    } else {
      var rest := TokensBytes(ts[1..]) + [QUOTE];
      assert TokensBytes(ts) + [QUOTE] == TokenBytes(ts[0]) + rest;
      SubSplit(b, i, TokenBytes(ts[0]), rest);
      RawToken(b, i, ts[0]);
      RawTokens(b, i + |TokenBytes(ts[0])|, ts[1..]);
    }
  }

  lemma {:induction false} AsciiPrefix(s: seq<byte>, rest: seq<byte>)
    requires forall k :: 0 <= k < |s| ==> s[k] < 0x80
    ensures FromUtf8(s + rest).Some? <==> FromUtf8(rest).Some?
  {
    if s == [] {
      assert s + rest == rest;
    } else {
      FromUtf8Step([s[0]], s[1..] + rest);
      assert s + rest == [s[0]] + (s[1..] + rest);
      AsciiPrefix(s[1..], rest);
    }
  }

  lemma {:induction false} TokensAreUtf8(ts: seq<CharToken>)
    requires TokensOk(ts)
    ensures FromUtf8(TokensBytes(ts)).Some?
  {
    if ts != [] {
      TokensAreUtf8(ts[1..]);
      match ts[0]
      case Plain(c) =>
        DecodeEncode(c);
        FromUtf8Step(EncodeScalar(c), TokensBytes(ts[1..]));
      case Short(_) => AsciiPrefix(TokenBytes(ts[0]), TokensBytes(ts[1..]));
      case Hex(_, _, _, _) => AsciiPrefix(TokenBytes(ts[0]), TokensBytes(ts[1..]));
    }
  }

  /** The text of an undecoded string. */
  ghost function RawText(raw: seq<byte>): Option<Text> {
    var r := BodyAt(raw + [QUOTE], 0);
    if r.None? then None else Some(r.value.value)
  }

  /** A string the parser reads, the screen reads too: to the same end, and with
      a raw form that determines the text. */
  lemma StringSim(b: seq<byte>, i: nat)
    requires StringAt(b, i).Some?
    ensures RawStringAt(b, i).Some? && RawStringAt(b, i).value.end == StringAt(b, i).value.end
    ensures RawText(RawStringAt(b, i).value.value) == Some(StringAt(b, i).value.value)
  {
    hide RawEnd, BodyAt, FromUtf8, TokensBytes, TokensOk;
    var ts := BodyFrom(b, i + 1);
    RawTokens(b, i + 1, ts);
    TokensAreUtf8(ts);
    var raw := TokensBytes(ts);
    SubSplit(b, i + 1, raw, [QUOTE]);
    assert b[i + 1..i + 1 + |raw|] == raw;
    assert (raw + [QUOTE])[0..|raw| + 1] == raw + [QUOTE];
    BodyParse(raw + [QUOTE], 0, ts);
  }

  // -----------------------------------------------------------------------
  // Values: the screen follows the parser as long as the nesting fits

  ghost function Bounded(end: nat, fits: bool): Option<nat> {
    if fits then Some(end) else None
  }

  lemma {:induction false} ValueSim(b: seq<byte>, from: nat, depth: nat)
    requires from <= |b| && ValueAt(b, from).Some?
    ensures ScreenValue(b, from, depth) ==
              Bounded(ValueAt(b, from).value.end, depth + Nesting(ValueAt(b, from).value.value) <= MAX_DEPTH)
    decreases |b| - from, 2
  {
    hide StringAt, NumberAt, RawStringAt, ElementsAt, MembersAt, ScreenElements, ScreenMembers, Fit, MembersFit;
    var i := SkipSpace(b, from);
    if b[i] == OPEN_BRACE {
      var j := SkipSpace(b, i + 1);
      if !At(b, j, CLOSE_BRACE) {
        NoMembersFit(depth + 1);
        MembersSim(b, j, [], depth + 1, {});
        MembersFitIsDeepest(MembersAt(b, j, []).value.value.members, depth);
      }
    } else if b[i] == OPEN_BRACKET {
      var j := SkipSpace(b, i + 1);
      if !At(b, j, CLOSE_BRACKET) {
        NoneFit(depth + 1);
        ElementsSim(b, j, [], depth + 1);
        FitIsDeepest(ElementsAt(b, j, []).value.value.values, depth);
      }
    } else if b[i] == QUOTE {
      StringSim(b, i);
    } else if Digit(b[i]) {
      NumberIsFlat(b, i);
    }
  }

  lemma NoneFit(depth: nat)
    ensures Fit([], depth)
  {}

  lemma NoMembersFit(depth: nat)
    ensures MembersFit([], depth)
  {}

  lemma NumberIsFlat(b: seq<byte>, i: nat)
    requires i < |b| && Digit(b[i]) && NumberAt(b, i).Some?
    ensures Nesting(NumberAt(b, i).value.value) == 0
  {}

  lemma {:induction false} ElementsSim(b: seq<byte>, from: nat, values: seq<JsonValue>, depth: nat)
    requires from <= |b| && ElementsAt(b, from, values).Some? && Fit(values, depth)
    ensures ElementsAt(b, from, values).value.value.Array?
    ensures ElementsAt(b, from, values).value.value.values != []
    ensures values <= ElementsAt(b, from, values).value.value.values
    ensures ScreenElements(b, from, depth) ==
              Bounded(ElementsAt(b, from, values).value.end, Fit(ElementsAt(b, from, values).value.value.values, depth))
    decreases |b| - from, 3
  {
    hide ValueAt, ScreenValue, Nesting;
    ValueSim(b, from, depth);
    var v := ValueAt(b, from).value;
    var all := values + [v.value];
    var final := ElementsAt(b, from, values).value.value;
    assert Fit(all, depth) <==> depth + Nesting(v.value) <= MAX_DEPTH by {
      assert all[|values|] == v.value;
    }
    var i := SkipSpace(b, v.end);
    if At(b, i, CLOSE_BRACKET) {
      assert final == Array(all);
    } else if Fit(all, depth) {
      ElementsSim(b, i + 1, all, depth);
    } else {
      ElementsGrow(b, i + 1, all);
      assert final.values[|values|] == v.value;
    }
  }

  lemma {:induction false} ElementsGrow(b: seq<byte>, from: nat, values: seq<JsonValue>)
    requires from <= |b| && ElementsAt(b, from, values).Some?
    ensures ElementsAt(b, from, values).value.value.Array?
    ensures values <= ElementsAt(b, from, values).value.value.values
    decreases |b| - from
  {
    hide ValueAt;
    var v := ValueAt(b, from).value;
    var i := SkipSpace(b, v.end);
    if !At(b, i, CLOSE_BRACKET) {
      ElementsGrow(b, i + 1, values + [v.value]);
    }
  }

  /** Every raw key seen decodes to a key already in the map. */
  ghost predicate KeysDecode(keys: set<seq<byte>>, members: seq<Member>) {
    forall raw :: raw in keys ==> RawText(raw).Some? && HasKey(members, RawText(raw).value)
  }

  lemma {:induction false} InsertHasKey(members: seq<Member>, key: Text, v: JsonValue, k: Text)
    ensures HasKey(Insert(members, key, v), k) <==> HasKey(members, k) || k == key
  {
    var r := Insert(members, key, v);
    if members == [] || Less(key, members[0].key) {
      assert forall i :: 0 <= i < |members| ==> r[i + 1] == members[i];
      assert r[0].key == key;
    } else {
      InsertHasKey(members[1..], key, v, k);
      assert r[1..] == Insert(members[1..], key, v) && r[0] == members[0];
      assert forall i :: 0 <= i < |members| ==> members[i] == if i == 0 then members[0] else members[1..][i - 1];
      assert forall i :: 0 <= i < |r| ==> r[i] == if i == 0 then r[0] else r[1..][i - 1];
      assert HasKey(r, k) <==> r[0].key == k || HasKey(r[1..], k);
      assert HasKey(members, k) <==> members[0].key == k || HasKey(members[1..], k);
    }
  }

  /** A raw repeat would be a decoded repeat. */
  lemma KeyIsNew(keys: set<seq<byte>>, members: seq<Member>, raw: seq<byte>, m: Member)
    requires KeysDecode(keys, members) && RawText(raw) == Some(m.key) && !HasKey(members, m.key)
    ensures raw !in keys && KeysDecode(keys + {raw}, Insert(members, m.key, m.value))
  {
    forall r | r in keys + {raw}
      ensures RawText(r).Some? && HasKey(Insert(members, m.key, m.value), RawText(r).value)
    {
      InsertHasKey(members, m.key, m.value, RawText(r).value);
    }
  }

  lemma {:induction false} MemberSim(b: seq<byte>, from: nat, depth: nat)
    requires from <= |b| && MemberAt(b, from).Some?
    ensures var m := MemberAt(b, from).value;
            if depth + Nesting(m.value.value) <= MAX_DEPTH
            then ScreenMember(b, from, depth).Some? && ScreenMember(b, from, depth).value.end == m.end
                 && RawText(ScreenMember(b, from, depth).value.value) == Some(m.value.key)
            else ScreenMember(b, from, depth).None?
    decreases |b| - from, 0
  {
    hide ValueAt, ScreenValue, Nesting, StringAt, RawStringAt, RawText;
    var i := SkipSpace(b, from);
    StringSim(b, i);
    ValueSim(b, SkipSpace(b, StringAt(b, i).value.end) + 1, depth);
  }

  lemma {:induction false} MembersGrow(b: seq<byte>, from: nat, members: seq<Member>, depth: nat)
    requires from <= |b| && MembersAt(b, from, members).Some?
    ensures MembersAt(b, from, members).value.value.Object?
    ensures MembersAt(b, from, members).value.value.members != []
    ensures MembersFit(MembersAt(b, from, members).value.value.members, depth) ==> MembersFit(members, depth)
    decreases |b| - from
  {
    hide MemberAt, Nesting, MembersFit, HasKey, Insert;
    var m := MemberAt(b, from).value;
    InsertFits(members, m.value.key, m.value.value, depth);
    if !At(b, m.end, CLOSE_BRACE) {
      MembersGrow(b, m.end + 1, Insert(members, m.value.key, m.value.value), depth);
    }
  }

  lemma {:induction false} MembersSim(b: seq<byte>, from: nat, members: seq<Member>, depth: nat, keys: set<seq<byte>>)
    requires from <= |b| && MembersAt(b, from, members).Some? && MembersFit(members, depth) && KeysDecode(keys, members)
    ensures MembersAt(b, from, members).value.value.Object?
    ensures MembersAt(b, from, members).value.value.members != []
    ensures ScreenMembers(b, from, depth, keys) ==
              Bounded(MembersAt(b, from, members).value.end,
                      MembersFit(MembersAt(b, from, members).value.value.members, depth))
    decreases |b| - from, 1
  {
    hide MemberAt, ScreenMember, Nesting, MembersFit, HasKey, Insert, KeysDecode, RawText;
    MemberSim(b, from, depth);
    var m := MemberAt(b, from).value;
    var all := Insert(members, m.value.key, m.value.value);
    InsertFits(members, m.value.key, m.value.value, depth);
    if MembersFit(all, depth) {
      var raw := ScreenMember(b, from, depth).value.value;
      KeyIsNew(keys, members, raw, m.value);
      if !At(b, m.end, CLOSE_BRACE) {
        MembersSim(b, m.end + 1, all, depth, keys + {raw});
      }
    } else if !At(b, m.end, CLOSE_BRACE) {
      MembersGrow(b, m.end + 1, all, depth);
    }
  }

  // -----------------------------------------------------------------------
  // Accepted documents contain no NUL

  predicate NoNul(s: seq<byte>) {
    forall k :: 0 <= k < |s| ==> s[k] != 0
  }

  lemma {:induction false} TokensNoNul(ts: seq<CharToken>)
    requires TokensOk(ts)
    ensures NoNul(TokensBytes(ts))
  {
    if ts != [] {
      TokensNoNul(ts[1..]);
      if ts[0].Plain? {
        PlainBytes(ts[0].c);
      }
    }
  }

  lemma {:induction false} NodeNoNul(n: Cst)
    requires NodeOk(n)
    ensures NoNul(NodeBytes(n))
    decreases n, 0
  {
    match n
    case Word(_) =>
    case Num(digits) => assert forall k :: 0 <= k < |digits| ==> Digit(digits[k]);
    case Str(tokens) => TokensNoNul(tokens);
    case Arr(gap, items) => if items != [] { ItemsNoNul(items); }
    case Obj(gap, entries) => if entries != [] { EntriesNoNul(entries); }
  }

  lemma {:induction false} ItemNoNul(it: Item)
    requires ItemOk(it)
    ensures NoNul(ItemBytes(it))
    decreases it, 1
  {
    hide NodeOk, NodeBytes;
    NodeNoNul(it.node);
  }

  lemma {:induction false} ItemsNoNul(items: seq<Item>)
    requires items != [] && forall i :: 0 <= i < |items| ==> ItemOk(items[i])
    ensures NoNul(ItemsBytes(items))
    decreases items, 0
  {
    hide ItemBytes, ItemOk;
    ItemNoNul(items[0]);
    if |items| > 1 {
      ItemsNoNul(items[1..]);
    }
  }

  lemma {:induction false} EntryNoNul(e: Entry)
    requires EntryOk(e)
    ensures NoNul(EntryBytes(e))
    decreases e, 1
  {
    hide ItemBytes, ItemOk, TokensBytes;
    TokensNoNul(e.key);
    ItemNoNul(e.item);
  }

  lemma {:induction false} EntriesNoNul(entries: seq<Entry>)
    requires entries != [] && forall i :: 0 <= i < |entries| ==> EntryOk(entries[i])
    ensures NoNul(EntriesBytes(entries))
    decreases entries, 0
  {
    hide EntryBytes, EntryOk;
    EntryNoNul(entries[0]);
    if |entries| > 1 {
      EntriesNoNul(entries[1..]);
    }
  }

  // -----------------------------------------------------------------------
  // The pre-screen only adds bounds

  /** `parse_json` yields `v` exactly when the parser alone does, the document is
      at most 64 MiB, and no value in it is enclosed by more than 256 containers. */
  lemma ScreenOnlyAddsBounds(document: Text, v: JsonValue)
    ensures ParseJson(document) == Some(v) <==>
              ParseAlone(Encode(document)) == Some(v)
              && |Encode(document)| <= MAX_RETAINED_BYTES && Nesting(v) <= MAX_DEPTH
  {
    hide ValueAt, ScreenValue, SkipSpace, Nesting;
    var b := Encode(document);
    FromUtf8Encode(document);
    if ParseAlone(b).Some? {
      ValueSim(b, 0, 0);
      AcceptedHasNoNul(b);
    }
  }

  lemma AcceptedHasNoNul(b: seq<byte>)
    requires ParseAlone(b).Some?
    ensures 0 !in b
  {
    hide ValueAt, Meaning, ItemBytes, NodeOk, SkipSpace;
    var doc := ItemFrom(b, 0);
    assert b[0..|b|] == b;
    ItemNoNul(doc);
  }
}
