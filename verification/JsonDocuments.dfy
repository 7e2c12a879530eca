/** The structural pre-screen and the canonical printer as the program runs
    them, and the entry points that combine the machines. */
module JsonDocuments {
  import opened Wrappers
  import opened Utf8
  import opened Hexadecimal
  import opened JsonSyntax
  import opened JsonScreen
  import opened JsonCanonical
  import opened JsonMachines

  /** Walks the bytes without building a value; each method computes the
      function of the specification that describes it. */
  class StructuralJson {
    const bytes: seq<byte>
    var index: nat

    constructor (bytes: seq<byte>)
      ensures this.bytes == bytes && index == 0
    {
      this.bytes := bytes;
      index := 0;
    }

    method Whitespace()
      requires index <= |bytes|
      modifies this`index
      ensures index == SkipSpace(bytes, old(index))
    {
      while index < |bytes| && Space(bytes[index])
        invariant index <= |bytes| && SkipSpace(bytes, index) == SkipSpace(bytes, old(index))
        decreases |bytes| - index
      {
        index := index + 1;
      }
    }

    method Consume(expected: byte) returns (ok: bool)
      modifies this`index
      ensures ok <==> At(bytes, old(index), expected)
      ensures index == if ok then old(index) + 1 else old(index)
    {
      ok := index < |bytes| && bytes[index] == expected;
      if ok {
        index := index + 1;
      }
    }

    /** Four hexadecimal digits. */
    method Nibbles() returns (ok: bool)
      requires index <= |bytes|
      modifies this`index
      ensures ok <==> FourHex(bytes, old(index))
      ensures old(index) <= index <= |bytes| && (ok ==> index == old(index) + 4)
    {
      var k := 0;
      while k < 4
        invariant 0 <= k <= 4 && index == old(index) + k <= |bytes|
        invariant forall j :: old(index) <= j < old(index) + k ==> HexDigit(bytes[j])
      {
        if index >= |bytes| {
          return false;
        }
        var nibble := bytes[index];
        index := index + 1;
        if !HexDigit(nibble) {
          return false;
        }
        k := k + 1;
      }
      ok := true;
    }

    method ScanString() returns (r: Option<seq<byte>>)
      requires index <= |bytes|
      modifies this`index
      ensures old(index) <= index <= |bytes|
      ensures var s := RawStringAt(bytes, old(index));
              if s.Some? then r == Some(s.value.value) && index == s.value.end else r.None?
    {
      hide FromUtf8;
      var open := Consume(QUOTE);
      if !open {
        return None;
      }
      var start := index;
      var escaped := false;
      while true
        invariant old(index) < start <= index <= |bytes|
        invariant RawEnd(bytes, index, escaped) == RawEnd(bytes, start, false)
        decreases |bytes| - index
      {
        if index >= |bytes| {
          return None;
        }
        var b := bytes[index];
        index := index + 1;
        if b == QUOTE && !escaped {
          var raw := bytes[start..index - 1];
          r := if FromUtf8(raw).Some? then Some(raw) else None;
          return;
        } else if b == BACKSLASH && !escaped {
          escaped := true;
        } else if escaped && SimpleLetter(b) {
          escaped := false;
        } else if escaped && b == 0x75 {
          var ok := Nibbles();
          if !ok {
            return None;
          }
          escaped := false;
        } else if escaped || b < 0x20 {
          return None;
        }
      }
    }

    method ScanNumber() returns (ok: bool)
      requires index < |bytes| && Digit(bytes[index])
      modifies this`index
      ensures old(index) <= index <= |bytes|
      ensures var n := NumberAt(bytes, old(index));
              if n.Some? then ok && index == n.value.end else !ok
    {
      var start := index;
      var zero := Consume(0x30);
      if zero {
        if index < |bytes| && Digit(bytes[index]) {
          return false;
        }
      } else {
        while index < |bytes| && Digit(bytes[index])
          invariant start <= index <= |bytes| && SkipDigits(bytes, index) == SkipDigits(bytes, start)
          decreases |bytes| - index
        {
          index := index + 1;
        }
      }
      ok := Decimal(bytes[start..index]) <= MAX_U64;
    }

    method Keyword(word: seq<byte>) returns (ok: bool)
      requires index <= |bytes|
      modifies this`index
      ensures old(index) <= index <= |bytes|
      ensures var w := ScreenWord(bytes, old(index), word);
              if w.Some? then ok && index == w.value else !ok
    {
      var end := index + |word|;
      if end > |bytes| || bytes[index..end] != word {
        return false;
      }
      index := end;
      ok := true;
    }

    method ScanValue(depth: nat) returns (ok: bool)
      requires index <= |bytes|
      modifies this`index
      ensures old(index) <= index <= |bytes|
      ensures var v := ScreenValue(bytes, old(index), depth);
              if v.Some? then ok && index == v.value else !ok
      decreases |bytes| - index, 2
    {
      hide RawStringAt, NumberAt, ScreenMembers, ScreenElements, SkipSpace;
      if depth > MAX_DEPTH {
        return false;
      }
      Whitespace();
      SkipTwice(bytes, old(index));
      if index == |bytes| {
        return false;
      }
      var b := bytes[index];
      if b == OPEN_BRACE {
        ok := ScanObject(depth + 1);
      } else if b == OPEN_BRACKET {
        ok := ScanArray(depth + 1);
      } else if b == QUOTE {
        var s := ScanString();
        ok := s.Some?;
      } else if b == 0x74 {
        ok := Keyword(TRUE_WORD);
      } else if b == 0x66 {
        ok := Keyword(FALSE_WORD);
      } else if b == 0x6E {
        ok := Keyword(NULL_WORD);
      } else if Digit(b) {
        ok := ScanNumber();
      } else {
        ok := false;
      }
    }

    /** One member up to the blank after its value; its key may not repeat. */
    method ScanMember(depth: nat, keys: set<seq<byte>>) returns (r: Option<seq<byte>>)
      requires index <= |bytes|
      modifies this`index
      ensures old(index) <= index <= |bytes|
      ensures var m := ScreenMember(bytes, old(index), depth);
              if m.Some? && m.value.value !in keys then r == Some(m.value.value) && index == m.value.end else r.None?
      decreases |bytes| - index, 3
    {
      hide RawStringAt, ScreenValue;
      Whitespace();
      var key := ScanString();
      if key.None? || key.value in keys {
        return None;
      }
      Whitespace();
      var colon := Consume(COLON);
      if !colon {
        return None;
      }
      var ok := ScanValue(depth);
      if !ok {
        return None;
      }
      Whitespace();
      r := key;
    }

    method ScanObject(depth: nat) returns (ok: bool)
      requires At(bytes, index, OPEN_BRACE)
      modifies this`index
      ensures old(index) <= index <= |bytes|
      ensures var j := SkipSpace(bytes, old(index) + 1);
              var v := if At(bytes, j, CLOSE_BRACE) then Some(j + 1) else ScreenMembers(bytes, j, depth, {});
              if v.Some? then ok && index == v.value else !ok
      decreases |bytes| - index, 1
    {
      hide ScreenMember, SkipSpace;
      var open := Consume(OPEN_BRACE);
      Whitespace();
      var close := Consume(CLOSE_BRACE);
      if close {
        return true;
      }
      ghost var start := index;
      var keys: set<seq<byte>> := {};
      while true
        invariant old(index) < start <= index <= |bytes|
        invariant ScreenMembers(bytes, index, depth, keys) == ScreenMembers(bytes, start, depth, {})
        decreases |bytes| - index
      {
        var key := ScanMember(depth, keys);
        if key.None? {
          return false;
        }
        keys := keys + {key.value};
        close := Consume(CLOSE_BRACE);
        if close {
          return true;
        }
        var comma := Consume(COMMA);
        if !comma {
          return false;
        }
      }
    }

    method ScanArray(depth: nat) returns (ok: bool)
      requires At(bytes, index, OPEN_BRACKET)
      modifies this`index
      ensures old(index) <= index <= |bytes|
      ensures var j := SkipSpace(bytes, old(index) + 1);
              var v := if At(bytes, j, CLOSE_BRACKET) then Some(j + 1) else ScreenElements(bytes, j, depth);
              if v.Some? then ok && index == v.value else !ok
      decreases |bytes| - index, 1
    {
      hide ScreenValue, SkipSpace;
      var open := Consume(OPEN_BRACKET);
      Whitespace();
      var close := Consume(CLOSE_BRACKET);
      if close {
        return true;
      }
      ghost var start := index;
      while true
        invariant old(index) < start <= index <= |bytes|
        invariant ScreenElements(bytes, index, depth) == ScreenElements(bytes, start, depth)
        decreases |bytes| - index
      {
        ok := ScanValue(depth);
        if !ok {
          return;
        }
        Whitespace();
        close := Consume(CLOSE_BRACKET);
        if close {
          return true;
        }
        var comma := Consume(COMMA);
        if !comma {
          return false;
        }
      }
    }
  }

  method StrictJsonRecord(bytes: seq<byte>) returns (r: Option<Text>)
    ensures r == StrictRecord(bytes)
  {
    hide ScreenValue, FromUtf8, SkipSpace;
    if |bytes| > MAX_RETAINED_BYTES {
      return None;
    }
    var document := FromUtf8(bytes);
    if document.None? || 0 in bytes {
      return None;
    }
    var screen := new StructuralJson(bytes);
    var ok := screen.ScanValue(0);
    if !ok {
      return None;
    }
    screen.Whitespace();
    r := if screen.index == |bytes| then document else None;
  }

  method ParseDocument(document: Text) returns (r: Option<JsonValue>)
    ensures r == ParseJson(document)
  {
    hide ValueAt, StrictRecord, SkipSpace, Encode;
    var admitted := StrictJsonRecord(Encode(document));
    if admitted.None? {
      return None;
    }
    var parser := new JsonParser(Encode(admitted.value));
    r := parser.ParseValue();
    if r.None? {
      return;
    }
    parser.Whitespace();
    if parser.index != |parser.bytes| {
      return None;
    }
  }

  // -----------------------------------------------------------------------
  // The printer

  lemma Glue(a: Text, b: Text, c: Text)
    ensures a + (b + c) == a + b + c
  {}

  class JsonWriter {
    var output: Text

    constructor ()
      ensures output == []
    {
      output := [];
    }

    method PushString(value: Text)
      modifies this
      ensures output == old(output) + PrintString(value)
    {
      hide PrintChar;
      ghost var before := output + [QUOTE];
      output := output + [QUOTE];
      var i := 0;
      while i < |value|
        invariant 0 <= i <= |value|
        invariant output == before + PrintChars(value, i)
      {
        Glue(before, PrintChars(value, i), PrintChar(value[i]));
        PushChar(value[i]);
        i := i + 1;
      }
      output := output + [QUOTE];
    }

    method PushChar(c: scalar)
      modifies this
      ensures output == old(output) + PrintChar(c)
    {
      if c == QUOTE {
        output := output + [BACKSLASH, QUOTE];
      } else if c == BACKSLASH {
        output := output + [BACKSLASH, BACKSLASH];
      } else if c == 0x0A {
        output := output + [BACKSLASH, 0x6E];
      } else if c == 0x0D {
        output := output + [BACKSLASH, 0x72];
      } else if c == 0x09 {
        output := output + [BACKSLASH, 0x74];
      } else if c <= 0x1F {
        output := output + [BACKSLASH, 0x75, 0x30, 0x30, HexLetter(c / 16), HexLetter(c % 16)];
      } else {
        output := output + [c];
      }
    }

    method PushValue(value: JsonValue)
      modifies this
      ensures output == old(output) + PrintValue(value)
      decreases value, 1
    {
      hide PrintString, PrintValues, PrintMembers, DigitsOf;
      match value {
        case Null => output := output + Ascii(NULL_WORD);
        case Bool(flag) => output := output + Ascii(if flag then TRUE_WORD else FALSE_WORD);
        case Number(n) => output := output + Ascii(DigitsOf(n));
        case String(text) => PushString(text);
        case Array(values) =>
          output := output + [OPEN_BRACKET];
          PushElements(values);
          output := output + [CLOSE_BRACKET];
        case Object(members) =>
          output := output + [OPEN_BRACE];
          PushMembers(members);
          output := output + [CLOSE_BRACE];
      }
    }

    method PushElements(values: seq<JsonValue>)
      modifies this
      ensures output == old(output) + PrintValues(values, |values|)
      decreases values, 0
    {
      hide PrintValue;
      var i := 0;
      while i < |values|
        invariant 0 <= i <= |values|
        invariant output == old(output) + PrintValues(values, i)
      {
        Glue(old(output), PrintValues(values, i), Separator(i));
        Glue(old(output), PrintValues(values, i) + Separator(i), PrintValue(values[i]));
        if i != 0 {
          output := output + [COMMA];
        }
        PushValue(values[i]);
        i := i + 1;
      }
    }

    method PushMembers(members: seq<Member>)
      modifies this
      ensures output == old(output) + PrintMembers(members, |members|)
      decreases members, 0
    {
      hide PrintMember;
      var i := 0;
      while i < |members|
        invariant 0 <= i <= |members|
        invariant output == old(output) + PrintMembers(members, i)
      {
        Glue(old(output), PrintMembers(members, i), Separator(i));
        Glue(old(output), PrintMembers(members, i) + Separator(i), PrintMember(members[i]));
        if i != 0 {
          output := output + [COMMA];
        }
        PushMember(members[i]);
        i := i + 1;
      }
    }

    method PushMember(member: Member)
      modifies this
      ensures output == old(output) + PrintMember(member)
      decreases member, 2
    {
      hide PrintString, PrintValue;
      PushString(member.key);
      output := output + [COLON];
      PushValue(member.value);
    }
  }

  method CanonicalDocument(value: JsonValue) returns (r: seq<byte>)
    ensures r == CanonicalBytes(value)
  {
    hide PrintValue, Encode;
    var writer := new JsonWriter();
    writer.PushValue(value);
    assert [] + PrintValue(value) == PrintValue(value);
    r := Encode(writer.output + [0x0A]);
  }
}
