/** The strict TOML reader of `strict_toml.rs`: comments, section headers, and
    values that may run over several lines until their brackets balance. */
module StrictToml {
  import opened Wrappers
  import opened Utf8
  import opened Splitting

  const NUL: scalar := 0x00
  const LF: scalar := 0x0A
  const CR: scalar := 0x0D
  const SPACE: scalar := 0x20
  const QUOTE: scalar := 0x22
  const HASH: scalar := 0x23
  const COMMA: scalar := 0x2C
  const DOT: scalar := 0x2E
  const EQUALS: scalar := 0x3D
  const OPEN: scalar := 0x5B
  const BACKSLASH: scalar := 0x5C
  const CLOSE: scalar := 0x5D

  // -----------------------------------------------------------------------
  // Blanks and lines

  /** Unicode's White_Space, which `trim` removes. */
  predicate White(c: scalar) {
    || 0x09 <= c <= 0x0D || c == 0x20 || c == 0x85 || c == 0xA0 || c == 0x1680 || 0x2000 <= c <= 0x200A
    || c == 0x2028 || c == 0x2029 || c == 0x202F || c == 0x205F || c == 0x3000
  }

  function TrimStart(t: Text): (r: Text)
    ensures r == [] || !White(r[0])
  {
    if t != [] && White(t[0]) then TrimStart(t[1..]) else t
  }

  function TrimEnd(t: Text): (r: Text)
    ensures r <= t && (r == [] || !White(r[|r| - 1]))
  {
    if t != [] && White(t[|t| - 1]) then TrimEnd(t[..|t| - 1]) else t
  }

  function Trim(t: Text): Text {
    TrimEnd(TrimStart(t))
  }

  /** `str::lines`. */
  function Lines(document: Text): seq<Text>
    decreases |document|
  {
    if document == [] then []
    else
      var i := IndexOf(document, LF);
      if i == |document| then [document]
      else
        var line := document[..i];
        [if line != [] && line[i - 1] == CR then line[..i - 1] else line] + Lines(document[i + 1..])
  }

  // -----------------------------------------------------------------------
  // Quotes, comments and brackets

  /** Where the comment of a line starts; none when a string stays open. */
  function CommentStart(line: Text, i: nat, quoted: bool, escaped: bool): (r: Option<nat>)
    requires i <= |line|
    ensures r.Some? ==> i <= r.value <= |line|
    decreases |line| - i
  {
    if i == |line| then (if quoted then None else Some(i))
    else if escaped then CommentStart(line, i + 1, quoted, false)
    else if line[i] == BACKSLASH && quoted then CommentStart(line, i + 1, quoted, true)
    else if line[i] == QUOTE then CommentStart(line, i + 1, !quoted, false)
    else if line[i] == HASH && !quoted then Some(i)
    else CommentStart(line, i + 1, quoted, false)
  }

  function Uncommented(line: Text): Option<Text> {
    var cut := CommentStart(line, 0, false, false);
    if cut.None? then None else Some(line[..cut.value])
  }

  /** Whether the brackets from `i` on balance, `depth` of them being open; none
      for a closing bracket too many and for an open string. */
  function BalanceFrom(value: Text, i: nat, quoted: bool, escaped: bool, depth: nat): Option<bool>
    requires i <= |value|
    decreases |value| - i
  {
    if i == |value| then (if quoted then None else Some(depth == 0))
    else if escaped then BalanceFrom(value, i + 1, quoted, false, depth)
    else if value[i] == BACKSLASH && quoted then BalanceFrom(value, i + 1, quoted, true, depth)
    else if value[i] == QUOTE then BalanceFrom(value, i + 1, !quoted, false, depth)
    else if value[i] == OPEN && !quoted then BalanceFrom(value, i + 1, quoted, false, depth + 1)
    else if value[i] == CLOSE && !quoted then
      (if depth == 0 then None else BalanceFrom(value, i + 1, quoted, false, depth - 1))
    else BalanceFrom(value, i + 1, quoted, false, depth)
  }

  function Balanced(value: Text): Option<bool> {
    BalanceFrom(value, 0, false, false, 0)
  }

  // -----------------------------------------------------------------------
  // Line by line

  predicate KeyChar(c: scalar) {
    0x30 <= c <= 0x39 || 0x41 <= c <= 0x5A || 0x61 <= c <= 0x7A || c == 0x5F || c == 0x2D || c == DOT
  }

  predicate KeyText(t: Text) {
    t != [] && forall i :: 0 <= i < |t| ==> KeyChar(t[i])
  }

  datatype Pending = Pending(key: Text, value: Text)

  /** What has been read so far. */
  datatype Reader = Reader(values: map<Text, Text>, section: Text, pending: Option<Pending>)

  function Qualified(section: Text, key: Text): Text {
    if section == [] then key else section + [DOT] + key
  }

  function Extended(value: Text, line: Text): Text {
    value + (if value == [] then [] else [SPACE]) + line
  }

  /** What a line does to the reader. */
  datatype Event =
    | Fault
    | Nothing
    | EnterSection(name: Text)
    | Hold(pending: Pending)
    | Assign(key: Text, value: Text)

  function ContinuedEvent(pending: Pending, line: Text): Event {
    if line != [] && line[0] == OPEN then Fault
    else
      var value := Extended(pending.value, line);
      var balanced := Balanced(value);
      if balanced.None? then Fault
      else if balanced.value then Assign(pending.key, value)
      else Hold(Pending(pending.key, value))
  }

  predicate Header(line: Text) {
    |line| >= 2 && line[0] == OPEN && line[|line| - 1] == CLOSE
  }

  function AssignedEvent(section: Text, line: Text): Event {
    var at := IndexOf(line, EQUALS);
    if at == |line| then Fault
    else
      var key, value := Trim(line[..at]), Trim(line[at + 1..]);
      if !KeyText(key) then Fault
      else if value != [] && value[0] == OPEN then
        var balanced := Balanced(value);
        if balanced.None? then Fault
        else if balanced.value then Assign(Qualified(section, key), value)
        else Hold(Pending(Qualified(section, key), value))
      else Assign(Qualified(section, key), value)
  }

  function LineEvent(r: Reader, original: Text): Event {
    var bare := Uncommented(original);
    if bare.None? then Fault
    else
      var line := Trim(bare.value);
      if line == [] then Nothing
      else if r.pending.Some? then ContinuedEvent(r.pending.value, line)
      else if Header(line) then
        (if KeyText(line[1..|line| - 1]) then EnterSection(line[1..|line| - 1]) else Fault)
      else AssignedEvent(r.section, line)
  }

  function Insert(r: Reader, key: Text, value: Text): Option<Reader> {
    if key in r.values then None else Some(r.(values := r.values[key := value], pending := None))
  }

  /** One line. */
  function StepLine(r: Reader, original: Text): Option<Reader> {
    match LineEvent(r, original)
    case Fault => None
    case Nothing => Some(r)
    case EnterSection(name) => Some(r.(section := name))
    case Hold(pending) => Some(r.(pending := Some(pending)))
    case Assign(key, value) => Insert(r, key, value)
  }

  function ReadLines(r: Reader, lines: seq<Text>): Option<Reader>
    decreases |lines|
  {
    if lines == [] then Some(r)
    else
      var next := StepLine(r, lines[0]);
      if next.None? then None else ReadLines(next.value, lines[1..])
  }

  function ReadAssignments(document: Text): Option<map<Text, Text>> {
    if NUL in document then None
    else
      var r := ReadLines(Reader(map[], [], None), Lines(document));
      if r.None? || r.value.pending.Some? then None else Some(r.value.values)
  }

  // -----------------------------------------------------------------------
  // Values

  function ReadString(value: Text): Option<Text> {
    if |value| < 2 || value[0] != QUOTE || value[|value| - 1] != QUOTE then None
    else
      var inner := value[1..|value| - 1];
      if QUOTE in inner || BACKSLASH in inner || LF in inner || CR in inner then None else Some(inner)
  }

  function ReadItems(items: seq<Text>): Option<seq<Text>> {
    if items == [] then Some([])
    else
      var first := ReadString(Trim(items[0]));
      var rest := ReadItems(items[1..]);
      if first.None? || rest.None? then None else Some([first.value] + rest.value)
  }

  function WithoutComma(t: Text): Text {
    if t != [] && t[|t| - 1] == COMMA then t[..|t| - 1] else t
  }

  function ReadStringArray(value: Text): Option<seq<Text>> {
    if |value| < 2 || value[0] != OPEN || value[|value| - 1] != CLOSE then None
    else
      var inner := Trim(WithoutComma(Trim(value[1..|value| - 1])));
      if inner == [] then Some([]) else ReadItems(Split(inner, COMMA))
  }

  // -----------------------------------------------------------------------
  // The loops

  method StripComment(line: Text) returns (r: Option<Text>)
    ensures r == Uncommented(line)
  {
    var quoted, escaped := false, false;
    var i := 0;
    while i < |line|
      invariant 0 <= i <= |line|
      invariant CommentStart(line, 0, false, false) == CommentStart(line, i, quoted, escaped)
    {
      var c := line[i];
      if escaped {
        escaped := false;
      } else if c == BACKSLASH && quoted {
        escaped := true;
      } else if c == QUOTE {
        quoted := !quoted;
      } else if c == HASH && !quoted {
        return Some(line[..i]);
      }
      i := i + 1;
    }
    assert line[..|line|] == line;
    r := if quoted then None else Some(line);
  }

  method BalancedArray(value: Text) returns (r: Option<bool>)
    ensures r == Balanced(value)
  {
    var quoted, escaped := false, false;
    var depth: nat := 0;
    var i := 0;
    while i < |value|
      invariant 0 <= i <= |value|
      invariant Balanced(value) == BalanceFrom(value, i, quoted, escaped, depth)
    {
      var c := value[i];
      if escaped {
        escaped := false;
      } else if c == BACKSLASH && quoted {
        escaped := true;
      } else if c == QUOTE {
        quoted := !quoted;
      } else if c == OPEN && !quoted {
        depth := depth + 1;
      } else if c == CLOSE && !quoted {
        if depth == 0 {
          return None;
        }
        depth := depth - 1;
      }
      i := i + 1;
    }
    r := if quoted then None else Some(depth == 0);
  }

  method Assignments(document: Text) returns (r: Option<map<Text, Text>>)
    ensures r == ReadAssignments(document)
  {
    hide Uncommented, Balanced, Trim, Lines, KeyText, IndexOf;
    if NUL in document {
      return None;
    }
    var values: map<Text, Text> := map[];
    var section: Text := [];
    var pending: Option<Pending> := None;
    var lines := Lines(document);
    var n := 0;
    while n < |lines|
      invariant 0 <= n <= |lines|
      invariant ReadLines(Reader(map[], [], None), lines) == ReadLines(Reader(values, section, pending), lines[n..])
    {
      ghost var reader := Reader(values, section, pending);
      assert lines[n..][1..] == lines[n + 1..];
      var bare := StripComment(lines[n]);
      n := n + 1;
      if bare.None? {
        return None;
      }
      var line := Trim(bare.value);
      if line == [] {
        continue;
      }
      if pending.Some? {
        if line[0] == OPEN {
          return None;
        }
        var value := Extended(pending.value.value, line);
        var balanced := BalancedArray(value);
        if balanced.None? {
          return None;
        }
        if balanced.value {
          if pending.value.key in values {
            return None;
          }
          values := values[pending.value.key := value];
          pending := None;
        } else {
          pending := Some(Pending(pending.value.key, value));
        }
        continue;
      }
      if Header(line) {
        if !KeyText(line[1..|line| - 1]) {
          return None;
        }
        section := line[1..|line| - 1];
        continue;
      }
      var at := IndexOf(line, EQUALS);
      if at == |line| {
        return None;
      }
      var key, value := Trim(line[..at]), Trim(line[at + 1..]);
      if !KeyText(key) {
        return None;
      }
      var qualified := Qualified(section, key);
      var balanced: Option<bool> := Some(true);
      if value != [] && value[0] == OPEN {
        balanced := BalancedArray(value);
        if balanced.None? {
          return None;
        }
      }
      if !balanced.value {
        pending := Some(Pending(qualified, value));
      } else {
        if qualified in values {
          return None;
        }
        values := values[qualified := value];
      }
    }
    assert lines[n..] == [];
    r := if pending.Some? then None else Some(values);
  }

  ghost function Prepended(front: seq<Text>, rest: Option<seq<Text>>): Option<seq<Text>> {
    if rest.None? then None else Some(front + rest.value)
  }

  lemma PrependNothing(rest: Option<seq<Text>>)
    ensures Prepended([], rest) == rest
  {
    assert rest.Some? ==> [] + rest.value == rest.value;
  }

  lemma PrependOne(front: seq<Text>, item: Text, rest: Option<seq<Text>>)
    ensures Prepended(front, Prepended([item], rest)) == Prepended(front + [item], rest)
  {
    assert rest.Some? ==> front + ([item] + rest.value) == front + [item] + rest.value;
  }

  method StringArray(value: Text) returns (r: Option<seq<Text>>)
    ensures r == ReadStringArray(value)
  {
    hide Split, Trim, ReadString;
    if |value| < 2 || value[0] != OPEN || value[|value| - 1] != CLOSE {
      return None;
    }
    var inner := Trim(WithoutComma(Trim(value[1..|value| - 1])));
    if inner == [] {
      return Some([]);
    }
    var items := Split(inner, COMMA);
    var values: seq<Text> := [];
    var i := 0;
    assert items[0..] == items;
    PrependNothing(ReadItems(items));
    while i < |items|
      invariant 0 <= i <= |items|
      invariant ReadItems(items) == Prepended(values, ReadItems(items[i..]))
    {
      var item := ReadString(Trim(items[i]));
      assert items[i..][1..] == items[i + 1..];
      if item.None? {
        return None;
      }
      PrependOne(values, item.value, ReadItems(items[i + 1..]));
      values := values + [item.value];
      i := i + 1;
    }
    assert values + [] == values;
    r := Some(values);
  }

  // -----------------------------------------------------------------------
  // Keys are never assigned twice

  /** The assignments that reading the lines makes, in order. */
  function AssignmentLog(r: Reader, lines: seq<Text>): seq<Pending>
    decreases |lines|
  {
    if lines == [] || StepLine(r, lines[0]).None? then []
    else
      var event := LineEvent(r, lines[0]);
      (if event.Assign? then [Pending(event.key, event.value)] else [])
      + AssignmentLog(StepLine(r, lines[0]).value, lines[1..])
  }

  ghost predicate DistinctKeys(log: seq<Pending>) {
    forall i, j :: 0 <= i < j < |log| ==> log[i].key != log[j].key
  }

  /** `values` is `before` with the assignments of the log added to it. */
  ghost predicate Adds(before: map<Text, Text>, log: seq<Pending>, values: map<Text, Text>) {
    && DistinctKeys(log)
    && (forall i :: 0 <= i < |log| ==> log[i].key !in before)
    && (forall k :: k in values <==> k in before || exists i :: 0 <= i < |log| && log[i].key == k)
    && (forall k :: k in before ==> k in values && values[k] == before[k])
    && (forall i :: 0 <= i < |log| ==> values[log[i].key] == log[i].value)
  }

  lemma {:induction false} LinesAdd(r: Reader, lines: seq<Text>)
    requires ReadLines(r, lines).Some?
    ensures Adds(r.values, AssignmentLog(r, lines), ReadLines(r, lines).value.values)
    decreases |lines|
  {
    hide LineEvent;
    if lines != [] {
      var next := StepLine(r, lines[0]).value;
      var log := AssignmentLog(next, lines[1..]);
      LinesAdd(next, lines[1..]);
      var event := LineEvent(r, lines[0]);
      if event.Assign? {
        OneMoreAdds(r.values, Pending(event.key, event.value), log, ReadLines(r, lines).value.values);
      } else {
        assert [] + log == log;
      }
    }
  }

  lemma OneMoreAdds(before: map<Text, Text>, first: Pending, log: seq<Pending>, values: map<Text, Text>)
    requires first.key !in before && Adds(before[first.key := first.value], log, values)
    ensures Adds(before, [first] + log, values)
  {
    var all, step := [first] + log, before[first.key := first.value];
    assert forall i :: 0 <= i < |all| ==> all[i] == if i == 0 then first else log[i - 1];
    forall k ensures k in values <==> k in before || exists i :: 0 <= i < |all| && all[i].key == k {
      if k in values && k !in before && k != first.key {
        var i :| 0 <= i < |log| && log[i].key == k;
        assert all[i + 1].key == k;
      }
      if k == first.key {
        assert all[0].key == k && k in step;
      }
      if i :| 0 <= i < |all| && all[i].key == k {
        assert i == 0 || log[i - 1].key == k;
      }
    }
  }

  /** In an accepted document no qualified key is assigned twice, and the result
      holds exactly the assignments made. */
  lemma AcceptedKeysAreUnique(document: Text)
    requires ReadAssignments(document).Some?
    ensures var log := AssignmentLog(Reader(map[], [], None), Lines(document));
            DistinctKeys(log) && Adds(map[], log, ReadAssignments(document).value)
  {
    LinesAdd(Reader(map[], [], None), Lines(document));
  }
}
