/** Request heads in `hell-http-host`: where a head ends, and the percent
    escaping of raw bytes in the request target. */
module HttpHead {
  import opened Wrappers
  import opened Utf8

  const CR: byte := 0x0D
  const LF: byte := 0x0A
  const SP: byte := 0x20
  const PERCENT: byte := 0x25

  // -----------------------------------------------------------------------
  // The end of a head

  /** An empty line ends just before position `e`. */
  predicate EndsAt(b: seq<byte>, e: nat) {
    4 <= e <= |b| && b[e - 4] == CR && b[e - 3] == LF && b[e - 2] == CR && b[e - 1] == LF
  }

  /** The first end of a head. */
  ghost predicate FirstEnd(b: seq<byte>, end: Option<nat>) {
    && (end.Some? ==> EndsAt(b, end.value))
    && forall e :: EndsAt(b, e) ==> end.Some? && end.value <= e
  }

  /** The first end at or after `e`. */
  ghost function EndFrom(b: seq<byte>, e: nat): (r: Option<nat>)
    ensures r.Some? ==> e <= r.value && EndsAt(b, r.value)
    ensures forall f :: e <= f && EndsAt(b, f) ==> r.Some? && r.value <= f
    decreases |b| - e
  {
    if e > |b| then None else if EndsAt(b, e) then Some(e) else EndFrom(b, e + 1)
  }

  /** The end of the head that `b` starts with. */
  ghost function HeaderEnd(b: seq<byte>): (r: Option<nat>)
    ensures FirstEnd(b, r)
  {
    EndFrom(b, 0)
  }

  lemma FirstEndIsUnique(b: seq<byte>, end: Option<nat>)
    requires FirstEnd(b, end)
    ensures end == HeaderEnd(b)
  {
    if HeaderEnd(b).Some? {
      assert EndsAt(b, HeaderEnd(b).value);
    }
  }

  /** Looking at less of the input hides the ends behind it, and no other. */
  lemma EndsInPrefix(b: seq<byte>, n: nat, e: nat)
    requires n <= |b|
    ensures EndsAt(b[..n], e) <==> e <= n && EndsAt(b, e)
  {}

  method FindHeaderEnd(bytes: seq<byte>) returns (end: Option<nat>)
    ensures FirstEnd(bytes, end) && end == HeaderEnd(bytes)
  {
    hide EndFrom;
    var e := 4;
    while e <= |bytes|
      invariant forall f :: EndsAt(bytes, f) ==> e <= f
    {
      if bytes[e - 4] == CR && bytes[e - 3] == LF && bytes[e - 2] == CR && bytes[e - 1] == LF {
        FirstEndIsUnique(bytes, Some(e));
        return Some(e);
      }
      e := e + 1;
    }
    FirstEndIsUnique(bytes, None);
    end := None;
  }

  /** No head ends inside `head`; it may be complete. */
  ghost predicate Unbroken(head: seq<byte>) {
    forall e :: EndsAt(head, e) ==> e == |head|
  }

  lemma PushKeepsUnbroken(head: seq<byte>, b: byte)
    requires FirstEnd(head, None)
    ensures Unbroken(head + [b])
  {
    forall e: nat | EndsAt(head + [b], e) ensures e == |head| + 1 {
      if e <= |head| {
        assert EndsAt(head, e);
      }
    }
  }

  // -----------------------------------------------------------------------
  // Escaping

  function UpperHex(n: nat): byte
    requires n < 16
  {
    if n < 10 then 0x30 + n else 0x41 + n - 10
  }

  function EscapeByte(b: byte): seq<byte> {
    if b < 0x80 then [b] else [PERCENT, UpperHex(b / 16), UpperHex(b % 16)]
  }

  /** The first `n` bytes, escaped. */
  function Escape(target: seq<byte>, n: nat): seq<byte>
    requires n <= |target|
  {
    if n == 0 then [] else Escape(target, n - 1) + EscapeByte(target[n - 1])
  }

  predicate LineBreakAt(b: seq<byte>, i: nat) {
    i + 1 < |b| && b[i] == CR && b[i + 1] == LF
  }

  /** The first line break at or after `i`. */
  function LineEnd(b: seq<byte>, i: nat): (r: Option<nat>)
    ensures r.Some? ==> i <= r.value && LineBreakAt(b, r.value)
    ensures forall k :: i <= k && LineBreakAt(b, k) ==> r.Some? && r.value <= k
    decreases |b| - i
  {
    if i >= |b| then None else if LineBreakAt(b, i) then Some(i) else LineEnd(b, i + 1)
  }

  /** The first space in `b[i..end]`. */
  function SpaceIn(b: seq<byte>, i: nat, end: nat): (r: Option<nat>)
    requires i <= end <= |b|
    ensures r.Some? ==> i <= r.value < end && b[r.value] == SP
    ensures forall k :: i <= k < (if r.Some? then r.value else end) ==> b[k] != SP
    decreases end - i
  {
    if i == end then None else if b[i] == SP then Some(i) else SpaceIn(b, i + 1, end)
  }

  /** Where the request target starts and ends, if there is one. */
  function Target(head: seq<byte>): (r: Option<(nat, nat)>)
    ensures r.Some? ==> 1 <= r.value.0 <= r.value.1 < |head| && head[r.value.0 - 1] == SP && head[r.value.1] == SP
    ensures r.Some? ==> forall k :: 0 <= k <= r.value.1 ==> !LineBreakAt(head, k)
  {
    var line := LineEnd(head, 0);
    if line.None? then None
    else
      var method_ := SpaceIn(head, 0, line.value);
      if method_.None? then None
      else
        var end := SpaceIn(head, method_.value + 1, line.value);
        if end.None? then None else Some((method_.value + 1, end.value))
  }

  function Sanitize(head: seq<byte>): seq<byte> {
    var t := Target(head);
    if t.None? then head
    else
      var target := head[t.value.0..t.value.1];
      head[..t.value.0] + Escape(target, |target|) + head[t.value.1..]
  }

  lemma EscapedByte(b: byte)
    ensures EscapeByte(b) == if b < 0x80 then [b] else [PERCENT] + [UpperHex(b / 16)] + [UpperHex(b % 16)]
  {}

  method SanitizeRequestHead(head: seq<byte>) returns (output: seq<byte>)
    ensures output == Sanitize(head)
  {
    hide Target, EscapeByte, UpperHex;
    var t := Target(head);
    if t.None? {
      return head;
    }
    var (from, to) := t.value;
    output := head[..from];
    var i := 0;
    while i < to - from
      invariant 0 <= i <= to - from
      invariant output == head[..from] + Escape(head[from..to], i)
    {
      var b := head[from + i];
      EscapedByte(b);
      if b < 0x80 {
        output := output + [b];
      } else {
        output := output + ([PERCENT] + [UpperHex(b / 16)] + [UpperHex(b % 16)]);
      }
      i := i + 1;
    }
    output := output + head[to..];
  }

  // -----------------------------------------------------------------------
  // What escaping does not change

  ghost predicate Ascii(s: seq<byte>) {
    forall i :: 0 <= i < |s| ==> s[i] < 0x80
  }

  ghost predicate NoBreak(s: seq<byte>) {
    forall i :: 0 <= i < |s| ==> !LineBreakAt(s, i)
  }

  /** The escaped target is ASCII, is the target itself if that was, and
      contains no line break unless the target did. */
  lemma {:induction false} EscapeFacts(target: seq<byte>, n: nat)
    requires n <= |target| && NoBreak(target)
    ensures var r := Escape(target, n);
            && Ascii(r) && NoBreak(r)
            && (Ascii(target) ==> r == target[..n])
            && (r != [] && r[|r| - 1] == CR ==> n > 0 && target[n - 1] == CR)
  {
    if n > 0 {
      EscapeFacts(target, n - 1);
      var before, last := Escape(target, n - 1), EscapeByte(target[n - 1]);
      var r := before + last;
      assert Ascii(last) && (target[n - 1] < 0x80 ==> last == [target[n - 1]]);
      assert forall i :: 0 <= i < |r| ==> r[i] == if i < |before| then before[i] else last[i - |before|];
      forall i | 0 <= i < |r| ensures !LineBreakAt(r, i) {
        if LineBreakAt(r, i) {
          assert i + 1 < |before| ==> LineBreakAt(before, i);
          assert i + 1 == |before|;
          assert LineBreakAt(target, n - 2);
        }
      }
    }
  }

  /** Replacing what stands between two spaces by something without a line
      break moves the end of a head, and does not make another. */
  lemma SpliceEnds(a: seq<byte>, t: seq<byte>, x: seq<byte>, c: seq<byte>, e: nat)
    requires a != [] && a[|a| - 1] == SP && c != [] && c[0] == SP && NoBreak(x)
    requires Unbroken(a + t + c) && EndsAt(a + x + c, e)
    ensures e == |a + x + c|
  {
    var head, out, shift := a + t + c, a + x + c, |a| + |x|;
    assert out[|a| - 1] == SP && out[shift] == SP;
    if e <= |a| {
      assert EndsAt(head, e);
    } else if e <= shift {
      assert out[e - 4] == x[e - 4 - |a|] && out[e - 3] == x[e - 3 - |a|];
      assert LineBreakAt(x, e - 4 - |a|);
    } else {
      assert e - 4 > shift;
      assert forall k :: shift <= k < |out| ==> out[k] == head[k - shift + |a| + |t|];
      assert EndsAt(head, e - shift + |a| + |t|);
    }
  }

  lemma EndIsInRest(front: seq<byte>, c: seq<byte>)
    requires c != [] && c[0] == SP
    ensures EndsAt(front + c, |front + c|) <==> EndsAt(c, |c|)
  {
    var all, n := front + c, |front|;
    assert all[n] == SP;
    if |c| >= 4 {
      assert all[n + (|c| - 4)] == c[|c| - 4] && all[n + (|c| - 3)] == c[|c| - 3];
      assert all[n + (|c| - 2)] == c[|c| - 2] && all[n + (|c| - 1)] == c[|c| - 1];
    }
  }

  /** A complete head stays one complete head. */
  lemma SanitizedStaysWhole(head: seq<byte>)
    requires EndsAt(head, |head|) && Unbroken(head)
    ensures EndsAt(Sanitize(head), |Sanitize(head)|) && Unbroken(Sanitize(head))
  {
    hide EndsAt, Escape;
    var t := Target(head);
    if t.Some? {
      var (from, to) := t.value;
      var a, target, c := head[..from], head[from..to], head[to..];
      var x := Escape(target, |target|);
      assert head == a + target + c;
      TargetHasNoBreak(head);
      EscapeFacts(target, |target|);
      EndIsInRest(a + target, c);
      EndIsInRest(a + x, c);
      forall e: nat | EndsAt(a + x + c, e) ensures e == |a + x + c| {
        SpliceEnds(a, target, x, c, e);
      }
    }
  }

  lemma TargetHasNoBreak(head: seq<byte>)
    requires Target(head).Some?
    ensures NoBreak(head[Target(head).value.0..Target(head).value.1])
  {
    var (from, to) := Target(head).value;
    forall i | 0 <= i < to - from ensures !LineBreakAt(head[from..to], i) {
      assert !LineBreakAt(head, from + i);
    }
  }

  lemma ThreeParts(head: seq<byte>, from: nat, to: nat)
    requires from <= to <= |head|
    ensures head[..from] + head[from..to] + head[to..] == head
  {}

  /** What the engine sees of a head: an ASCII target, and the same head if the
      target was ASCII already. */
  lemma SanitizedIsAscii(head: seq<byte>)
    requires Target(head).Some?
    ensures var (from, to) := Target(head).value;
            && Ascii(Escape(head[from..to], to - from))
            && (Ascii(head[from..to]) ==> Sanitize(head) == head)
  {
    var (from, to) := Target(head).value;
    hide Target, NoBreak, Escape, Ascii;
    TargetHasNoBreak(head);
    var target := head[from..to];
    EscapeFacts(target, |target|);
    assert target[..|target|] == target;
    ThreeParts(head, from, to);
  }
}
