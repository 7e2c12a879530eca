/** The response side of a connection in `hell-http-host`: what the engine writes
    goes to the socket, except that the head of an informational response is
    collected and rewritten first. */
module Egress {
  import opened Wrappers
  import opened Utf8
  import opened HttpHead

  /** An informational status with its reason, as an opaque value. */
  datatype Informational = Informational(status: nat, reason: seq<byte>)

  /** What one write to the socket does. */
  datatype SocketWrite = Wrote(most: nat) | WriteFailed | WouldBlock

  datatype Poll = Ready(count: nat) | WriteZero | SocketError | TimedOut | Pending

  /** What went through: bytes as they are, and heads that were rewritten. */
  datatype Item = Plain(bytes: seq<byte>) | Rewritten(head: seq<byte>, informational: Informational)

  type Rewrite = (seq<byte>, Informational) -> seq<byte>

  ghost function Accepted(items: seq<Item>): seq<byte> {
    if items == [] then []
    else
      Accepted(items[..|items| - 1])
      + match items[|items| - 1] case Plain(bytes) => bytes case Rewritten(head, _) => head
  }

  ghost function OnWire(rewrite: Rewrite, items: seq<Item>): seq<byte> {
    if items == [] then []
    else
      OnWire(rewrite, items[..|items| - 1])
      + match items[|items| - 1] case Plain(bytes) => bytes case Rewritten(head, i) => rewrite(head, i)
  }

  lemma OneMore(rewrite: Rewrite, items: seq<Item>, item: Item)
    ensures Accepted(items + [item]) ==
              Accepted(items) + match item case Plain(bytes) => bytes case Rewritten(head, _) => head
    ensures OnWire(rewrite, items + [item]) ==
              OnWire(rewrite, items) + match item case Plain(bytes) => bytes case Rewritten(head, i) => rewrite(head, i)
  {
    assert (items + [item])[..|items|] == items;
  }

  /** One write of `n` bytes: the outcome, and what the writes to come will do. */
  function WriteOnce(coming: seq<SocketWrite>, n: nat): (r: (Poll, seq<SocketWrite>))
    ensures r.0.Ready? ==> r.0.count <= n
    ensures r.0.Ready? || r.0 == SocketError || r.0 == Pending
    ensures r.0 != Pending ==> |r.1| < |coming|
  {
    if coming == [] then (Pending, [])
    else
      (match coming[0]
       case Wrote(most) => Ready(if most < n then most else n)
       case WriteFailed => SocketError
       case WouldBlock => Pending,
       coming[1..])
  }

  /** Writing until `n` bytes are gone or the socket takes no more: the outcome,
      how many bytes went, and what is left of the writes to come. */
  ghost function Drain(n: nat, coming: seq<SocketWrite>): (r: (Poll, nat, seq<SocketWrite>))
    ensures r.1 <= n && (r.0.Ready? <==> r.1 == n) && (r.0.Ready? ==> r.0.count == 0) && r.0 != TimedOut
    decreases |coming|
  {
    if n == 0 then (Ready(0), 0, coming)
    else
      var (once, later) := WriteOnce(coming, n);
      if !once.Ready? then (once, 0, later)
      else if once.count == 0 then (WriteZero, 0, later)
      else
        var (outcome, more, left) := Drain(n - once.count, later);
        (outcome, once.count + more, left)
  }

  /** Nothing is lost, repeated or reordered on the way out. */
  ghost predicate Conserves(rewrite: Rewrite, accepted: seq<byte>, written: seq<byte>, items: seq<Item>,
                            wireHead: seq<byte>, wireOutput: seq<byte>) {
    accepted == Accepted(items) + wireHead && written + wireOutput == OnWire(rewrite, items)
  }

  lemma WriteConserves(rewrite: Rewrite, accepted: seq<byte>, written: seq<byte>, items: seq<Item>,
                       wireHead: seq<byte>, wireOutput: seq<byte>, n: nat)
    requires Conserves(rewrite, accepted, written, items, wireHead, wireOutput) && n <= |wireOutput|
    ensures Conserves(rewrite, accepted, written + wireOutput[..n], items, wireHead, wireOutput[n..])
  {
    assert written + wireOutput == written + wireOutput[..n] + wireOutput[n..];
  }

  lemma PlainConserves(rewrite: Rewrite, accepted: seq<byte>, written: seq<byte>, items: seq<Item>, bytes: seq<byte>)
    requires Conserves(rewrite, accepted, written, items, [], [])
    ensures Conserves(rewrite, accepted + bytes, written + bytes, items + [Plain(bytes)], [], [])
  {
    hide Accepted, OnWire;
    OneMore(rewrite, items, Plain(bytes));
  }

  lemma CollectConserves(rewrite: Rewrite, accepted: seq<byte>, written: seq<byte>, items: seq<Item>,
                         wireHead: seq<byte>, wireOutput: seq<byte>, bytes: seq<byte>)
    requires Conserves(rewrite, accepted, written, items, wireHead, wireOutput)
    ensures Conserves(rewrite, accepted + bytes, written, items, wireHead + bytes, wireOutput)
  {}

  /** The collected head is rewritten; what came behind it passes as it is. */
  lemma RewriteConserves(rewrite: Rewrite, accepted: seq<byte>, written: seq<byte>, items: seq<Item>,
                         wireHead: seq<byte>, wireOutput: seq<byte>, end: nat, i: Informational)
    requires Conserves(rewrite, accepted, written, items, wireHead, wireOutput) && end <= |wireHead|
    ensures Conserves(rewrite, accepted, written, items + [Rewritten(wireHead[..end], i), Plain(wireHead[end..])], [],
                      wireOutput + rewrite(wireHead[..end], i) + wireHead[end..])
  {
    hide Accepted, OnWire;
    OneMore(rewrite, items, Rewritten(wireHead[..end], i));
    OneMore(rewrite, items + [Rewritten(wireHead[..end], i)], Plain(wireHead[end..]));
    assert items + [Rewritten(wireHead[..end], i)] + [Plain(wireHead[end..])]
        == items + [Rewritten(wireHead[..end], i), Plain(wireHead[end..])];
    assert Accepted(items) + wireHead == Accepted(items) + wireHead[..end] + wireHead[end..];
  }

  /** Each rewritten head is one whole head. */
  ghost predicate WholeHeads(items: seq<Item>) {
    forall i :: 0 <= i < |items| && items[i].Rewritten? ==>
      EndsAt(items[i].head, |items[i].head|) && Unbroken(items[i].head)
  }

  /** What decides how the next bytes are passed on, and what was passed on. */
  datatype Stage = Stage(informational: Option<Informational>, wireHead: seq<byte>, items: seq<Item>)

  /** The bytes go to the pending informational head. Where they complete it, it
      is to be rewritten, what is behind it is not, and nothing is pending. */
  ghost function Collected(s: Stage, bytes: seq<byte>): Stage
    requires s.informational.Some?
  {
    var all := s.wireHead + bytes;
    match HeaderEnd(all)
    case None => s.(wireHead := all)
    case Some(end) =>
      assert EndsAt(all, end);
      Stage(None, [], s.items + [Rewritten(all[..end], s.informational.value), Plain(all[end..])])
  }

  /** What that puts on the wire. */
  ghost function Rewriting(s: Stage, bytes: seq<byte>, rewrite: Rewrite): seq<byte>
    requires s.informational.Some?
  {
    var all := s.wireHead + bytes;
    match HeaderEnd(all)
    case None => []
    case Some(end) =>
      assert EndsAt(all, end);
      rewrite(all[..end], s.informational.value) + all[end..]
  }

  lemma PlainIsNoHead(items: seq<Item>, bytes: seq<byte>)
    requires WholeHeads(items)
    ensures WholeHeads(items + [Plain(bytes)])
  {
    hide EndsAt, Unbroken;
  }

  lemma FirstIsWhole(items: seq<Item>, all: seq<byte>, end: nat, i: Informational)
    requires WholeHeads(items) && FirstEnd(all, Some(end))
    ensures end <= |all| && WholeHeads(items + [Rewritten(all[..end], i), Plain(all[end..])])
  {
    assert EndsAt(all, end);
    EndsInPrefix(all, end, end);
    forall e | EndsAt(all[..end], e) ensures e == end {
      EndsInPrefix(all, end, e);
    }
    HeadIsAdded(items, all[..end], i, all[end..]);
  }

  lemma HeadIsAdded(items: seq<Item>, head: seq<byte>, i: Informational, rest: seq<byte>)
    requires WholeHeads(items) && EndsAt(head, |head|) && Unbroken(head)
    ensures WholeHeads(items + [Rewritten(head, i), Plain(rest)])
  {
    hide EndsAt, Unbroken;
  }

  class WireIo {
    const rewrite: Rewrite
    var informational: Option<Informational>
    var wireHead: seq<byte>
    var wireOutput: seq<byte>
    var coming: seq<SocketWrite>
    ghost var accepted: seq<byte>
    ghost var written: seq<byte>
    ghost var items: seq<Item>

    ghost function State(): Stage
      reads this
    {
      Stage(informational, wireHead, items)
    }

    ghost predicate Valid()
      reads this
    {
      && Conserves(rewrite, accepted, written, items, wireHead, wireOutput)
      && WholeHeads(items)
      && FirstEnd(wireHead, None)
      && (informational.None? ==> wireHead == [])
    }

    constructor (rewrite: Rewrite, coming: seq<SocketWrite>)
      ensures Valid() && accepted == [] && written == []
    {
      this.rewrite := rewrite;
      this.coming := coming;
      informational := None;
      wireHead, wireOutput := [], [];
      accepted, written, items := [], [], [];
    }

    method SetInformational(i: Informational)
      requires Valid()
      modifies `informational
      ensures Valid() && informational == Some(i)
    {
      informational := Some(i);
    }

    /** One write of a non-empty buffer: how much the socket took. What it took
        is what the peer sees. */
    method SocketPollWrite(bytes: seq<byte>) returns (r: Poll)
      modifies `coming, `written
      ensures (r, coming) == WriteOnce(old(coming), |bytes|)
      ensures written == old(written) + if r.Ready? then bytes[..r.count] else []
    {
      var (outcome, later) := WriteOnce(coming, |bytes|);
      coming := later;
      if outcome.Ready? {
        written := written + bytes[..outcome.count];
      }
      r := outcome;
    }

    /** Writes the queue out, in order, as far as the socket takes it. */
    method PollWireOutput() returns (r: Poll)
      requires Valid()
      modifies `coming, `wireOutput, `written
      ensures Valid() && written + wireOutput == old(written + wireOutput) && old(written) <= written
      ensures r.Ready? <==> wireOutput == []
      ensures (r, |old(wireOutput)| - |wireOutput|, coming) == Drain(|old(wireOutput)|, old(coming))
    {
      hide Conserves, WholeHeads, FirstEnd, WriteOnce;
      ghost var all := written + wireOutput;
      while wireOutput != []
        invariant |wireOutput| <= |old(wireOutput)|
        invariant var (outcome, more, left) := Drain(|wireOutput|, coming);
                  Drain(|old(wireOutput)|, old(coming)) == (outcome, |old(wireOutput)| - |wireOutput| + more, left)
        invariant Valid() && written + wireOutput == all && old(written) <= written
        decreases |coming|
      {
        ghost var before := written;
        r := SocketPollWrite(wireOutput);
        if !r.Ready? {
          assert written == before;
          return;
        }
        if r.count == 0 {
          assert written == before;
          return WriteZero;
        }
        var n := r.count;
        WriteConserves(rewrite, accepted, before, items, wireHead, wireOutput, n);
        assert written + wireOutput[n..] == before + wireOutput;
        wireOutput := wireOutput[n..];
      }
      r := Ready(0);
    }

    /** One write by the engine. Bytes count as accepted only behind everything
        accepted before, and a write that has to wait accepts nothing. */
    method PollWrite(bytes: seq<byte>, expired: bool) returns (r: Poll)
      requires Valid()
      modifies this
      ensures Valid() && old(written) <= written && old(items) <= items
      ensures expired <==> r == TimedOut
      ensures expired ==> written == old(written) && coming == old(coming)
      ensures r.Ready? ==> r.count <= |bytes| && accepted == old(accepted) + bytes[..r.count]
      ensures r.Pending? || r.TimedOut? ==> accepted == old(accepted) && State() == old(State())
      ensures !r.Ready? ==> accepted == old(accepted) || accepted == old(accepted) + bytes
      // the queue goes first
      ensures !expired && !Drain(|old(wireOutput)|, old(coming)).0.Ready? ==>
                r == Drain(|old(wireOutput)|, old(coming)).0 && coming == Drain(|old(wireOutput)|, old(coming)).2
                && State() == old(State())
      // then the bytes, when no informational head is pending
      ensures !expired && Drain(|old(wireOutput)|, old(coming)).0.Ready? && old(informational).None? ==>
                && (r, coming) == WriteOnce(Drain(|old(wireOutput)|, old(coming)).2, |bytes|) && wireOutput == []
                && State() == (if r.Ready? then Stage(None, [], old(items) + [Plain(bytes[..r.count])])
                               else old(State()))
                && written == old(written) + old(wireOutput) + if r.Ready? then bytes[..r.count] else []
      // or what they complete of the one that is
      ensures !expired && Drain(|old(wireOutput)|, old(coming)).0.Ready? && old(informational).Some? ==>
                var out := Rewriting(old(State()), bytes, rewrite);
                var (outcome, gone, left) := Drain(|out|, Drain(|old(wireOutput)|, old(coming)).2);
                && State() == Collected(old(State()), bytes)
                && written == old(written) + old(wireOutput) + out[..gone] && wireOutput == out[gone..]
                && coming == left
                && r == if outcome == WriteZero || outcome == SocketError then outcome else Ready(|bytes|)
    {
      hide Conserves, FirstEnd, WholeHeads, HeaderEnd, Drain, WriteOnce, Collected, Rewriting;
      if expired {
        return TimedOut;
      }
      r := PollWireOutput();
      if !r.Ready? {
        return;
      }
      assert written == old(written) + old(wireOutput);
      if informational.None? {
        ghost var before := written;
        r := SocketPollWrite(bytes);
        if r.Ready? {
          PlainConserves(rewrite, accepted, before, items, bytes[..r.count]);
          PlainIsNoHead(items, bytes[..r.count]);
          accepted := accepted + bytes[..r.count];
          items := items + [Plain(bytes[..r.count])];
        } else {
          assert written == before;
        }
        return;
      }
      r := Collect(bytes);
    }

    /** Adds to the pending informational head, and sends it off once complete. */
    method Collect(bytes: seq<byte>) returns (r: Poll)
      requires Valid() && informational.Some? && wireOutput == []
      modifies this
      ensures Valid() && State() == Collected(old(State()), bytes) && accepted == old(accepted) + bytes
      ensures old(written) <= written && old(items) <= items
      ensures var out := Rewriting(old(State()), bytes, rewrite);
              var (outcome, gone, left) := Drain(|out|, old(coming));
              && written == old(written) + out[..gone] && wireOutput == out[gone..] && coming == left
              && r == if outcome == WriteZero || outcome == SocketError then outcome else Ready(|bytes|)
    {
      hide Conserves, FirstEnd, WholeHeads, HeaderEnd, Drain;
      CollectConserves(rewrite, accepted, written, items, wireHead, wireOutput, bytes);
      wireHead := wireHead + bytes;
      accepted := accepted + bytes;
      NothingToDrain(coming);
      var end := FindHeaderEnd(wireHead);
      if end.Some? {
        FirstIsWhole(items, wireHead, end.value, informational.value);
        RewriteConserves(rewrite, accepted, written, items, wireHead, wireOutput, end.value, informational.value);
        items := items + [Rewritten(wireHead[..end.value], informational.value), Plain(wireHead[end.value..])];
        var remainder := wireHead[end.value..];
        wireOutput := wireOutput + rewrite(wireHead[..end.value], informational.value) + remainder;
        wireHead := [];
        NoEndInNothing();
        informational := None;
        ghost var out := wireOutput;
        r := PollWireOutput();
        SplitAt(old(written), out, written, wireOutput);
        if r == WriteZero || r == SocketError {
          return;
        }
      }
      r := Ready(|bytes|);
    }
  }

  lemma NothingToDrain(coming: seq<SocketWrite>)
    ensures Drain(0, coming) == (Ready(0), 0, coming)
  {}

  lemma SplitAt(before: seq<byte>, out: seq<byte>, after: seq<byte>, left: seq<byte>)
    requires after + left == before + out && |left| <= |out|
    ensures after == before + out[..|out| - |left|] && left == out[|out| - |left|..]
  {
    assert after == (after + left)[..|after|] && left == (after + left)[|after|..];
  }

  lemma NoEndInNothing()
    ensures FirstEnd([], None)
  {}
}
