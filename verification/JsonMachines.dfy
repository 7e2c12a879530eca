/** The recursive-descent parser of `json.rs` as the program runs it: an index
    that advances over the bytes and loops that collect. Each method computes
    the specification function of the same reading. */
module JsonMachines {
  import opened Wrappers
  import opened Utf8
  import opened Hexadecimal
  import opened JsonSyntax

  ghost function Prepended(front: Text, r: Option<Parsed<Text>>): Option<Parsed<Text>> {
    if r.None? then None else Some(Parsed(front + r.value.value, r.value.end))
  }

  /** The value of the first `k` hexadecimal digits at `i`. */
  function HexPrefix(b: seq<byte>, i: nat, k: nat): nat
    requires i + k <= |b| && forall j :: i <= j < i + k ==> HexDigit(b[j])
  {
    if k == 0 then 0 else HexPrefix(b, i, k - 1) * 16 + HexValue(b[i + k - 1])
  }

  /** The bytes, and how far they have been read. */
  class JsonParser {
    const bytes: seq<byte>
    var index: nat

    constructor (bytes: seq<byte>)
      ensures this.bytes == bytes && index == 0
    {
      this.bytes := bytes;
      index := 0;
    }

    method Whitespace()
      requires index <= |bytes|
      modifies this`index
      ensures index == SkipSpace(bytes, old(index))
    {
      while index < |bytes| && Space(bytes[index])
        invariant index <= |bytes| && SkipSpace(bytes, index) == SkipSpace(bytes, old(index))
        decreases |bytes| - index
      {
        index := index + 1;
      }
    }

    method Consume(expected: byte) returns (ok: bool)
      modifies this`index
      ensures ok <==> At(bytes, old(index), expected)
      ensures index == if ok then old(index) + 1 else old(index)
    {
      ok := index < |bytes| && bytes[index] == expected;
      if ok {
        index := index + 1;
      }
    }

    method UnicodeEscape() returns (r: Option<scalar>)
      requires index <= |bytes|
      modifies this`index
      ensures old(index) <= index <= |bytes|
      ensures var n := HexFour(bytes, old(index));
              if n.Some? && Scalar(n.value) then r == Some(n.value as scalar) && index == old(index) + 4 else r.None?
    {
      var value, k := 0, 0;
      while k < 4
        invariant 0 <= k <= 4 && index == old(index) + k <= |bytes|
        invariant forall j :: old(index) <= j < old(index) + k ==> HexDigit(bytes[j])
        invariant value == HexPrefix(bytes, old(index), k)
      {
        if index >= |bytes| {
          return None;
        }
        var b := bytes[index];
        index := index + 1;
        if !HexDigit(b) {
          return None;
        }
        value := value * 16 + HexValue(b);
        k := k + 1;
      }
      assert HexPrefix(bytes, old(index), 4) == HexPrefix(bytes, old(index), 3) * 16 + HexValue(bytes[old(index) + 3]);
      assert HexPrefix(bytes, old(index), 3) == HexPrefix(bytes, old(index), 2) * 16 + HexValue(bytes[old(index) + 2]);
      r := if Scalar(value) then Some(value as scalar) else None;
    }

    method Escape() returns (r: Option<scalar>)
      requires index <= |bytes|
      modifies this`index
      ensures old(index) <= index <= |bytes|
      ensures var e := EscapeAt(bytes, old(index));
              if e.Some? then r == Some(e.value.value) && index == e.value.end else r.None?
    {
      if index >= |bytes| {
        return None;
      }
      var escaped := bytes[index];
      index := index + 1;
      if escaped == 0x75 {
        r := UnicodeEscape();
      } else {
        r := SimpleEscape(escaped);
      }
    }

    /** The character led by the byte just read. */
    method WideChar() returns (r: Option<scalar>)
      requires 0 < index <= |bytes|
      modifies this`index
      ensures old(index) <= index <= |bytes|
      ensures var w := WideAt(bytes, old(index) - 1);
              if w.Some? then r == Some(w.value.value) && index == w.value.end else r.None?
    {
      var start := index - 1;
      var width := Width(bytes[start]);
      if width < 2 || start + width > |bytes| {
        return None;
      }
      var slice := bytes[start..start + width];
      if !WellFormed(slice) {
        return None;
      }
      index := start + width;
      r := Some(DecodeScalar(slice));
    }

    method ParseString() returns (r: Option<Text>)
      requires index <= |bytes|
      modifies this`index
      ensures old(index) <= index <= |bytes|
      ensures var s := StringAt(bytes, old(index));
              if s.Some? then r == Some(s.value.value) && index == s.value.end else r.None?
    {
      hide EscapeAt, WideAt;
      var open := Consume(QUOTE);
      if !open {
        return None;
      }
      ghost var start := index;
      var output: Text := [];
      assert BodyAt(bytes, start).Some? ==>
               output + BodyAt(bytes, start).value.value == BodyAt(bytes, start).value.value;
      while true
        invariant old(index) < start <= index <= |bytes|
        invariant BodyAt(bytes, start) == Prepended(output, BodyAt(bytes, index))
        decreases |bytes| - index
      {
        if index >= |bytes| {
          return None;
        }
        ghost var at := index;
        var b := bytes[index];
        index := index + 1;
        if b == QUOTE {
          assert output + [] == output;
          return Some(output);
        }
        var c: Option<scalar>;
        if b == BACKSLASH {
          c := Escape();
        } else if b < 0x20 {
          c := None;
        } else if b < 0x80 {
          c := Some(b as scalar);
        } else {
          c := WideChar();
        }
        if c.None? {
          return None;
        }
        ghost var rest := BodyAt(bytes, index);
        assert rest.Some? ==> output + ([c.value] + rest.value.value) == output + [c.value] + rest.value.value;
        output := output + [c.value];
      }
    }

    method ParseNumber() returns (r: Option<JsonValue>)
      requires index < |bytes| && Digit(bytes[index])
      modifies this`index
      ensures old(index) <= index <= |bytes|
      ensures var n := NumberAt(bytes, old(index));
              if n.Some? then r == Some(n.value.value) && index == n.value.end else r.None?
    {
      var start := index;
      var zero := Consume(0x30);
      if zero {
        if index < |bytes| && Digit(bytes[index]) {
          return None;
        }
      } else {
        while index < |bytes| && Digit(bytes[index])
          invariant start <= index <= |bytes| && SkipDigits(bytes, index) == SkipDigits(bytes, start)
          decreases |bytes| - index
        {
          index := index + 1;
        }
      }
      var value := Decimal(bytes[start..index]);
      r := if value > MAX_U64 then None else Some(Number(value));
    }

    method Keyword(word: seq<byte>, value: JsonValue) returns (r: Option<JsonValue>)
      requires index <= |bytes|
      modifies this`index
      ensures old(index) <= index <= |bytes|
      ensures var w := WordAt(bytes, old(index), word, value);
              if w.Some? then r == Some(w.value.value) && index == w.value.end else r.None?
    {
      var end := index + |word|;
      if end > |bytes| || bytes[index..end] != word {
        return None;
      }
      index := end;
      r := Some(value);
    }

    method ParseValue() returns (r: Option<JsonValue>)
      requires index <= |bytes|
      modifies this`index
      ensures old(index) <= index <= |bytes|
      ensures var v := ValueAt(bytes, old(index));
              if v.Some? then r == Some(v.value.value) && index == v.value.end else r.None?
      decreases |bytes| - index, 2
    {
      hide StringAt, NumberAt, MembersAt, ElementsAt;
      Whitespace();
      if index == |bytes| {
        return None;
      }
      var b := bytes[index];
      if b == OPEN_BRACE {
        r := ParseObject();
      } else if b == OPEN_BRACKET {
        r := ParseArray();
      } else if b == QUOTE {
        var s := ParseString();
        r := if s.None? then None else Some(String(s.value));
      } else if b == 0x74 {
        r := Keyword(TRUE_WORD, Bool(true));
      } else if b == 0x66 {
        r := Keyword(FALSE_WORD, Bool(false));
      } else if b == 0x6E {
        r := Keyword(NULL_WORD, Null);
      } else if Digit(b) {
        r := ParseNumber();
      } else {
        r := None;
      }
    }

    /** One member, up to the blank after its value. */
    method ParseMember() returns (r: Option<Member>)
      requires index <= |bytes|
      modifies this`index
      ensures old(index) <= index <= |bytes|
      ensures var m := MemberAt(bytes, old(index));
              if m.Some? then r == Some(m.value.value) && index == m.value.end else r.None?
      decreases |bytes| - index, 3
    {
      hide StringAt, ValueAt;
      Whitespace();
      var key := ParseString();
      if key.None? {
        return None;
      }
      Whitespace();
      var colon := Consume(COLON);
      if !colon {
        return None;
      }
      var value := ParseValue();
      if value.None? {
        return None;
      }
      Whitespace();
      r := Some(Member(key.value, value.value));
    }

    method ParseObject() returns (r: Option<JsonValue>)
      requires At(bytes, index, OPEN_BRACE)
      modifies this`index
      ensures old(index) <= index <= |bytes|
      ensures var v := ValueAt(bytes, old(index));
              if v.Some? then r == Some(v.value.value) && index == v.value.end else r.None?
      decreases |bytes| - index, 1
    {
      hide ValueAt, MemberAt, HasKey, Insert;
      ObjectAt(bytes, index);
      var open := Consume(OPEN_BRACE);
      Whitespace();
      var close := Consume(CLOSE_BRACE);
      if close {
        return Some(Object([]));
      }
      ghost var start := index;
      var members: seq<Member> := [];
      while true
        invariant old(index) < start <= index <= |bytes|
        invariant MembersAt(bytes, index, members) == MembersAt(bytes, start, [])
        decreases |bytes| - index
      {
        var member := ParseMember();
        if member.None? {
          return None;
        }
        if HasKey(members, member.value.key) {
          return None;
        }
        members := Insert(members, member.value.key, member.value.value);
        close := Consume(CLOSE_BRACE);
        if close {
          return Some(Object(members));
        }
        var comma := Consume(COMMA);
        if !comma {
          return None;
        }
      }
    }

    method ParseArray() returns (r: Option<JsonValue>)
      requires At(bytes, index, OPEN_BRACKET)
      modifies this`index
      ensures old(index) <= index <= |bytes|
      ensures var v := ValueAt(bytes, old(index));
              if v.Some? then r == Some(v.value.value) && index == v.value.end else r.None?
      decreases |bytes| - index, 1
    {
      hide ValueAt, SkipSpace;
      ArrayAt(bytes, index);
      var open := Consume(OPEN_BRACKET);
      Whitespace();
      var close := Consume(CLOSE_BRACKET);
      if close {
        return Some(Array([]));
      }
      ghost var start := index;
      var values: seq<JsonValue> := [];
      while true
        invariant old(index) < start <= index <= |bytes|
        invariant ElementsAt(bytes, index, values) == ElementsAt(bytes, start, [])
        decreases |bytes| - index
      {
        var value := ParseValue();
        if value.None? {
          return None;
        }
        values := values + [value.value];
        Whitespace();
        close := Consume(CLOSE_BRACKET);
        if close {
          return Some(Array(values));
        }
        var comma := Consume(COMMA);
        if !comma {
          return None;
        }
      }
    }
  }

  lemma ObjectAt(b: seq<byte>, i: nat)
    requires At(b, i, OPEN_BRACE)
    ensures var j := SkipSpace(b, i + 1);
            ValueAt(b, i) == if At(b, j, CLOSE_BRACE) then Some(Parsed(Object([]), j + 1)) else MembersAt(b, j, [])
  {}

  lemma ArrayAt(b: seq<byte>, i: nat)
    requires At(b, i, OPEN_BRACKET)
    ensures var j := SkipSpace(b, i + 1);
            ValueAt(b, i) == if At(b, j, CLOSE_BRACKET) then Some(Parsed(Array([]), j + 1)) else ElementsAt(b, j, [])
  {}
}
