/** The request side of a connection in `hell-http-host`: bytes taken from the
    socket pass through a raw buffer, a growing head and an output queue before
    the HTTP engine reads them. */
module Ingress {
  import opened Wrappers
  import opened Utf8
  import opened HttpHead

  datatype Phase = Head | AwaitBody | Body(rawRemaining: Option<nat>) | AwaitNext

  /** What one read of the socket returns; no bytes at all means its end. */
  datatype SocketRead = Received(bytes: seq<byte>) | SocketFailed | NothingYet

  datatype Reason = TimedOut | HeadTooLong | HeadInvalid | SocketError

  /** The last three are no results of the code: it panics on a slice past its
      buffer, or on a byte that does not fit, or its loop goes on for ever. */
  datatype Poll = Ready | Failed(reason: Reason) | Pending | SliceOutOfRange | NoRoomForByte | Endless

  /** What has gone through: complete heads, and pieces of bodies. */
  datatype Item = HeadItem(head: seq<byte>) | BodyItem(bytes: seq<byte>)

  const BUFFER: nat := 8192

  /** The bytes of the items as they came from the socket. */
  ghost function Taken(items: seq<Item>): seq<byte> {
    if items == [] then []
    else
      Taken(items[..|items| - 1])
      + match items[|items| - 1] case HeadItem(head) => head case BodyItem(bytes) => bytes
  }

  /** The bytes of the items as the engine gets them. */
  ghost function Delivered(items: seq<Item>): seq<byte> {
    if items == [] then []
    else
      Delivered(items[..|items| - 1])
      + match items[|items| - 1] case HeadItem(head) => Sanitize(head) case BodyItem(bytes) => bytes
  }

  lemma OneMore(items: seq<Item>, item: Item)
    ensures Taken(items + [item]) == Taken(items) + match item case HeadItem(head) => head case BodyItem(bytes) => bytes
    ensures Delivered(items + [item]) ==
              Delivered(items) + match item case HeadItem(head) => Sanitize(head) case BodyItem(bytes) => bytes
  {
    assert (items + [item])[..|items|] == items;
  }

  function BytesOf(read: SocketRead): seq<byte> {
    match read case Received(bytes) => bytes case _ => []
  }

  /** The bytes that the socket has yet to yield. */
  ghost function Stream(coming: seq<SocketRead>): seq<byte> {
    if coming == [] then []
    else BytesOf(coming[0]) + Stream(coming[1..])
  }

  /** A bound on the reads that are still to come. */
  function Weight(coming: seq<SocketRead>): nat {
    if coming == [] then 0
    else (match coming[0] case Received(bytes) => 1 + |bytes| case _ => 1) + Weight(coming[1..])
  }

  /** One read of at most `capacity` bytes: the outcome, and what is still to come. */
  function ReadOnce(coming: seq<SocketRead>, capacity: nat): (r: (SocketRead, seq<SocketRead>))
    requires capacity > 0
    ensures r.0.Received? ==> |r.0.bytes| <= capacity
    ensures r.0 != NothingYet ==> Weight(r.1) < Weight(coming)
  {
    if coming == [] then (NothingYet, [])
    else if coming[0].Received? && |coming[0].bytes| > capacity then
      (Received(coming[0].bytes[..capacity]), [Received(coming[0].bytes[capacity..])] + coming[1..])
    else (coming[0], coming[1..])
  }

  lemma StreamStarts(read: SocketRead, later: seq<SocketRead>)
    ensures Stream([read] + later) == BytesOf(read) + Stream(later)
  {
    assert ([read] + later)[1..] == later;
  }

  /** A read takes its bytes from the front of the stream. */
  lemma {:induction false} ReadStreams(coming: seq<SocketRead>, capacity: nat)
    requires capacity > 0
    ensures var (read, later) := ReadOnce(coming, capacity);
            Stream(coming) == BytesOf(read) + Stream(later)
  {
    if coming != [] {
      hide Stream;
      var rest := coming[1..];
      assert coming == [coming[0]] + rest;
      StreamStarts(coming[0], rest);
      if coming[0].Received? && |coming[0].bytes| > capacity {
        var bytes := coming[0].bytes;
        StreamStarts(Received(bytes[capacity..]), rest);
        assert bytes + Stream(rest) == bytes[..capacity] + (bytes[capacity..] + Stream(rest));
      }
    }
  }

  lemma ReadLess(coming: seq<SocketRead>)
    ensures var (read, later) := ReadOnce(coming, BUFFER); BytesOf(read) != [] ==> Weight(later) < Weight(coming)
  {}

  lemma FirstRead(coming: seq<SocketRead>, capacity: nat)
    requires capacity > 0
    ensures BytesOf(ReadOnce(coming, capacity).0) != [] <==> coming != [] && BytesOf(coming[0]) != []
    ensures |BytesOf(ReadOnce(coming, capacity).0)| <= capacity
  {}

  /** Nothing is read twice and nothing in between is skipped. */
  lemma ReadAccount(source: seq<byte>, taken: seq<byte>, coming: seq<SocketRead>, capacity: nat)
    requires capacity > 0 && taken + Stream(coming) == source
    ensures var (read, later) := ReadOnce(coming, capacity);
            (taken + BytesOf(read)) + Stream(later) == source
  {
    hide Stream, ReadOnce;
    ReadStreams(coming, capacity);
    var (read, later) := ReadOnce(coming, capacity);
    assert taken + (BytesOf(read) + Stream(later)) == (taken + BytesOf(read)) + Stream(later);
  }

  function Least(a: nat, b: nat): nat {
    if a < b then a else b
  }

  /** Nothing is lost, repeated or reordered on the way in. */
  ghost predicate Conserves(taken: seq<byte>, delivered: seq<byte>, items: seq<Item>,
                            head: seq<byte>, output: seq<byte>, raw: seq<byte>) {
    taken == Taken(items) + head + raw && delivered + output == Delivered(items)
  }

  /** A head is never split: what counts as one ends where it ends, and is valid. */
  ghost predicate WholeHeads(items: seq<Item>, head: seq<byte>, valid: seq<byte> -> bool) {
    && Unbroken(head)
    && forall i :: 0 <= i < |items| && items[i].HeadItem? ==>
         EndsAt(items[i].head, |items[i].head|) && Unbroken(items[i].head) && valid(items[i].head)
  }

  /** A body stays within its declared length. */
  ghost predicate BodyFits(phase: Phase, declared: Option<nat>, bodyBytes: nat) {
    && (declared.Some? ==> bodyBytes <= declared.value)
    && (phase.Body? ==> phase.rawRemaining == (if declared.None? then None else Some(declared.value - bodyBytes)))
    && (phase.Body? && declared.Some? ==> bodyBytes < declared.value)
  }

  lemma SomethingRemains(phase: Phase, declared: Option<nat>, bodyBytes: nat)
    requires BodyFits(phase, declared, bodyBytes)
    ensures phase != Body(Some(0))
  {}

  /** No head exceeds the limit, neither a queued one nor the partial one. */
  ghost predicate WithinLimit(items: seq<Item>, head: seq<byte>, limit: Option<nat>) {
    limit.Some? ==>
      |head| <= limit.value && forall i :: 0 <= i < |items| && items[i].HeadItem? ==> |items[i].head| <= limit.value
  }

  lemma HeadWithinLimit(items: seq<Item>, head: seq<byte>, limit: Option<nat>)
    ensures WithinLimit(items + [HeadItem(head)], [], limit) <==> WithinLimit(items, head, limit)
  {
    var all := items + [HeadItem(head)];
    assert all[|items|] == HeadItem(head) && forall i :: 0 <= i < |items| ==> all[i] == items[i];
  }

  lemma BodyWithinLimit(items: seq<Item>, head: seq<byte>, bytes: seq<byte>, limit: Option<nat>)
    ensures WithinLimit(items + [BodyItem(bytes)], head, limit) <==> WithinLimit(items, head, limit)
  {
    var all := items + [BodyItem(bytes)];
    assert all[|items|] == BodyItem(bytes) && forall i :: 0 <= i < |items| ==> all[i] == items[i];
  }

  lemma OutputConserves(taken: seq<byte>, delivered: seq<byte>, items: seq<Item>, head: seq<byte>,
                        output: seq<byte>, raw: seq<byte>, n: nat)
    requires Conserves(taken, delivered, items, head, output, raw) && n <= |output|
    ensures Conserves(taken, delivered + output[..n], items, head, output[n..], raw)
  {
    assert delivered + output == delivered + output[..n] + output[n..];
  }

  lemma ReadConserves(taken: seq<byte>, delivered: seq<byte>, items: seq<Item>, head: seq<byte>,
                      output: seq<byte>, raw: seq<byte>, bytes: seq<byte>)
    requires Conserves(taken, delivered, items, head, output, raw)
    ensures Conserves(taken + bytes, delivered, items, head, output, raw + bytes)
  {}

  lemma PushConserves(taken: seq<byte>, delivered: seq<byte>, items: seq<Item>, head: seq<byte>,
                      output: seq<byte>, raw: seq<byte>)
    requires Conserves(taken, delivered, items, head, output, raw) && raw != []
    ensures Conserves(taken, delivered, items, head + [raw[0]], output, raw[1..])
  {
    assert head + raw == head + [raw[0]] + raw[1..];
  }

  lemma HeadConserves(taken: seq<byte>, delivered: seq<byte>, items: seq<Item>, head: seq<byte>,
                      output: seq<byte>, raw: seq<byte>)
    requires Conserves(taken, delivered, items, head, output, raw)
    ensures Conserves(taken, delivered, items + [HeadItem(head)], [], output + Sanitize(head), raw)
  {
    hide Sanitize, Taken, Delivered;
    OneMore(items, HeadItem(head));
    assert delivered + (output + Sanitize(head)) == delivered + output + Sanitize(head);
    assert Taken(items) + head + [] + raw == Taken(items) + head + raw;
  }

  lemma BodyConserves(taken: seq<byte>, delivered: seq<byte>, items: seq<Item>, raw: seq<byte>, n: nat)
    requires Conserves(taken, delivered, items, [], [], raw) && n <= |raw|
    ensures Conserves(taken, delivered + raw[..n], items + [BodyItem(raw[..n])], [], [], raw[n..])
  {
    hide Sanitize, Taken, Delivered;
    OneMore(items, BodyItem(raw[..n]));
    assert raw == raw[..n] + raw[n..];
    assert delivered + [] == delivered;
  }

  lemma HeadIsWhole(items: seq<Item>, head: seq<byte>, valid: seq<byte> -> bool, end: nat)
    requires WholeHeads(items, head, valid) && FirstEnd(head, Some(end))
    ensures end == |head| && Sanitize(head) != []
    ensures valid(head) ==> WholeHeads(items + [HeadItem(head)], [], valid)
  {
    hide Sanitize;
    assert EndsAt(head, end);
    SanitizedStaysWhole(head);
  }

  lemma BodyIsNoHead(items: seq<Item>, head: seq<byte>, valid: seq<byte> -> bool, bytes: seq<byte>)
    requires WholeHeads(items, head, valid)
    ensures WholeHeads(items + [BodyItem(bytes)], head, valid)
  {
    hide EndsAt, Unbroken;
  }

  lemma PushIsWhole(items: seq<Item>, head: seq<byte>, valid: seq<byte> -> bool, b: byte)
    requires WholeHeads(items, head, valid) && FirstEnd(head, None)
    ensures WholeHeads(items, head + [b], valid)
  {
    PushKeepsUnbroken(head, b);
  }

  // -----------------------------------------------------------------------
  // What one turn of the head phase comes to

  /** The part of the connection that the head phase works on. */
  datatype Stage = Stage(phase: Phase, items: seq<Item>, head: seq<byte>, output: seq<byte>, raw: seq<byte>)

  /** Bytes moved one by one from the raw buffer into the head meet the limit
      first, or the end of the head, or run out. */
  datatype Fill = TooLong | Ends(end: nat) | Runs

  ghost function FillOf(head: seq<byte>, raw: seq<byte>, limit: Option<nat>): (r: Fill)
    ensures r.Ends? ==> EndsAt(head + raw, r.end)
    ensures r.TooLong? ==> limit.Some? && limit.value < |head + raw|
  {
    var all := head + raw;
    var end := HeaderEnd(all);
    var stop := if end.Some? then end.value else |all|;
    if HeaderEnd(head).Some? then
      assert EndsAt(all, HeaderEnd(head).value);
      Ends(HeaderEnd(head).value)
    else if limit.Some? && stop > limit.value then TooLong
    else if end.Some? then Ends(end.value)
    else Runs
  }

  /** The state after the bytes at hand are used up, and the fault if there is one. */
  ghost function Turned(s: Stage, limit: Option<nat>, valid: seq<byte> -> bool): (Stage, Option<Reason>) {
    var all := s.head + s.raw;
    match FillOf(s.head, s.raw, limit)
    case TooLong =>
      var cut := if |s.head| > limit.value then |s.head| else limit.value + 1;
      (s.(head := all[..cut], raw := all[cut..]), Some(HeadTooLong))
    case Ends(end) =>
      if !valid(all[..end]) then (s.(head := all[..end], raw := all[end..]), Some(HeadInvalid))
      else
        (Stage(AwaitBody, s.items + [HeadItem(all[..end])], [], s.output + Sanitize(all[..end]), all[end..]), None)
    case Runs => (s.(head := all, raw := []), None)
  }

  /** Past the limit there is no way back. */
  lemma FillTooLong(head: seq<byte>, raw: seq<byte>, limit: nat)
    requires FirstEnd(head, None) && |head| + (if raw == [] then 0 else 1) > limit
    ensures FillOf(head, raw, Some(limit)) == TooLong
  {
    hide EndsAt, HeaderEnd;
    FirstEndIsUnique(head, None);
    var all := head + raw;
    if HeaderEnd(all).Some? {
      assert all[..|head|] == head;
      EndsInPrefix(all, |head|, HeaderEnd(all).value);
    }
  }

  lemma FillEnds(head: seq<byte>, raw: seq<byte>, limit: Option<nat>, end: nat)
    requires FirstEnd(head, None) && raw != [] && FirstEnd(head + [raw[0]], Some(end))
    requires limit.Some? ==> |head| + 1 <= limit.value
    ensures end == |head| + 1 <= |head + raw| && FillOf(head, raw, limit) == Ends(end)
    ensures (head + raw)[..end] == head + [raw[0]] && (head + raw)[end..] == raw[1..]
  {
    hide HeaderEnd;
    var all, more := head + raw, head + [raw[0]];
    assert all[..|more|] == more && more[..|head|] == head;
    FirstEndIsUnique(head, None);
    EndsInPrefix(more, |head|, end);
    assert EndsAt(more, end);
    forall e | EndsAt(all, e) ensures end <= e {
      EndsInPrefix(all, |more|, e);
    }
    EndsInPrefix(all, |more|, end);
    FirstEndIsUnique(all, Some(end));
  }

  lemma FillRuns(head: seq<byte>, limit: Option<nat>)
    requires FirstEnd(head, None) && (limit.Some? ==> |head| <= limit.value)
    ensures FillOf(head, [], limit) == Runs
  {
    hide EndsAt, HeaderEnd;
    FirstEndIsUnique(head, None);
    assert head + [] == head;
  }

  lemma FillMoves(head: seq<byte>, raw: seq<byte>, limit: Option<nat>)
    requires FirstEnd(head, None) && raw != [] && FirstEnd(head + [raw[0]], None)
    ensures head + raw == head + [raw[0]] + raw[1..]
    ensures FillOf(head + [raw[0]], raw[1..], limit) == FillOf(head, raw, limit)
  {
    hide EndsAt, HeaderEnd;
    FirstEndIsUnique(head, None);
    FirstEndIsUnique(head + [raw[0]], None);
    assert head + raw == head + [raw[0]] + raw[1..];
  }

  /** A complete head has nothing behind it, so the turn only judges it. */
  lemma FillComplete(head: seq<byte>, raw: seq<byte>, limit: Option<nat>, end: nat)
    requires Unbroken(head) && FirstEnd(head, Some(end))
    ensures end == |head| && FillOf(head, raw, limit) == Ends(end)
    ensures (head + raw)[..end] == head && (head + raw)[end..] == raw
  {
    hide HeaderEnd;
    FirstEndIsUnique(head, Some(end));
    assert EndsAt(head, end);
  }

  /** What a turn without a read does: a fault leaves items and output alone,
      a head is queued, or all bytes at hand are in the partial head. */
  lemma TurnedFacts(s: Stage, limit: Option<nat>, valid: seq<byte> -> bool)
    requires s.phase.Head? && WholeHeads(s.items, s.head, valid)
    ensures var (after, fault) := Turned(s, limit, valid);
            && (fault.None? && !FillOf(s.head, s.raw, limit).Runs? ==> Queued(s, after))
            && (fault.Some? || FillOf(s.head, s.raw, limit).Runs? ==>
                  after == s.(head := after.head, raw := after.raw))
            && (FillOf(s.head, s.raw, limit).Runs? ==>
                  fault.None? && after.raw == [] && FillOf(after.head, after.raw, limit).Runs?)
            && fault != Some(TimedOut)
            && (fault == Some(HeadInvalid) ==> HeaderEnd(after.head).Some? && !valid(after.head))
            && (HeaderEnd(s.head).Some? && !valid(s.head) ==> after == s && fault == Some(HeadInvalid))
  {
    hide EndsAt, HeaderEnd, Sanitize;
    var all := s.head + s.raw;
    var fill := FillOf(s.head, s.raw, limit);
    if HeaderEnd(s.head).Some? {
      FillComplete(s.head, s.raw, limit, HeaderEnd(s.head).value);
    }
    if fill.Runs? {
      FillRuns(all, limit);
    }
    if fill.Ends? {
      EndIsWhole(s.head, s.raw, limit);
      SanitizedStaysWhole(all[..fill.end]);
      assert Sanitize(all[..fill.end]) != [] by { NothingEndsInNothing(); }
    }
  }

  /** A complete head is only judged. */
  lemma TurnedComplete(s: Stage, limit: Option<nat>, valid: seq<byte> -> bool, end: nat)
    requires WholeHeads(s.items, s.head, valid) && FirstEnd(s.head, Some(end))
    ensures Turned(s, limit, valid) ==
              if valid(s.head) then
                (Stage(AwaitBody, s.items + [HeadItem(s.head)], [], s.output + Sanitize(s.head), s.raw), None)
              else (s, Some(HeadInvalid))
    ensures Sanitize(s.head) != []
  {
    hide EndsAt, Sanitize;
    HeadIsWhole(s.items, s.head, valid, end);
    FillComplete(s.head, s.raw, limit, end);
  }

  /** An overlong head without an end stays as it is. */
  lemma TurnedOverrun(s: Stage, limit: nat, valid: seq<byte> -> bool)
    requires FirstEnd(s.head, None) && |s.head| > limit
    ensures Turned(s, Some(limit), valid) == (s, Some(HeadTooLong))
  {
    FillTooLong(s.head, s.raw, limit);
    assert (s.head + s.raw)[..|s.head|] == s.head && (s.head + s.raw)[|s.head|..] == s.raw;
  }

  // -----------------------------------------------------------------------
  // States in which a read comes to grief

  /** The slice of the read buffer would be longer than the buffer. */
  ghost predicate SliceFails(s: Stage, room: nat) {
    && s.phase.Body? && s.phase.rawRemaining.Some? && s.phase.rawRemaining.value > BUFFER
    && room > BUFFER && s.output == [] && s.raw == []
  }

  /** The socket is read although nothing more can be passed on, and yields. */
  ghost predicate ByteIsLost(s: Stage, coming: seq<SocketRead>, room: nat) {
    s.phase.Body? && room == 0 && coming != [] && BytesOf(coming[0]) != []
  }

  /** Output that is waiting keeps the bytes at hand, no whole head, from being added to. */
  ghost predicate Spins(s: Stage, limit: Option<nat>) {
    s.phase.Head? && s.output != [] && FillOf(s.head, s.raw, limit).Runs?
  }

  /** A complete head that failed validation. */
  ghost predicate Stuck(s: Stage, valid: seq<byte> -> bool) {
    s.phase.Head? && HeaderEnd(s.head).Some? && !valid(s.head)
  }

  // -----------------------------------------------------------------------
  // What a whole read comes to

  /** What the head phase comes to when the timer does not interfere: an outcome,
      or none when a head was queued, with the state and the reads that are left. */
  ghost function HeadResult(s: Stage, coming: seq<SocketRead>, limit: Option<nat>, valid: seq<byte> -> bool)
    : (Option<Poll>, Stage, seq<SocketRead>)
    decreases Weight(coming)
  {
    var (after, fault) := Turned(s, limit, valid);
    if fault.Some? then (Some(Failed(fault.value)), after, coming)
    else if after.output != [] then (None, after, coming)
    else
      var (read, later) := ReadOnce(coming, BUFFER);
      if BytesOf(read) != [] then HeadResult(after.(raw := BytesOf(read)), later, limit, valid)
      else (Some(if read.Received? then Ready else if read.SocketFailed? then Failed(SocketError) else Pending),
            after, later)
  }

  /** The outcome of reading body bytes when there is room for `room` of them. */
  ghost function BodyOutcome(read: SocketRead, room: nat): Poll {
    match read
    case Received(bytes) => if room == 0 && bytes != [] then NoRoomForByte else Ready
    case SocketFailed => Failed(SocketError)
    case NothingYet => Pending
  }

  /** What the body phase comes to: buffered bytes first, else one socket read
      of at most what remains and has room. */
  ghost predicate BodyResult(s: Stage, coming: seq<SocketRead>, room: nat,
                             r: Poll, put: seq<byte>, after: Stage, later: seq<SocketRead>)
    requires s.phase.Body?
  {
    var allowance := Allowance(s.phase.rawRemaining, room);
    && after.head == s.head && after.output == s.output
    && after.items == (if put == [] then s.items else s.items + [BodyItem(put)])
    && after.phase == (match s.phase.rawRemaining
                       case None => s.phase
                       case Some(n) => if |put| >= n then AwaitNext else Body(Some(n - |put|)))
    && if allowance > 0 && s.raw != [] then
         && r.Ready? && put == s.raw[..Least(allowance, |s.raw|)]
         && after.raw == s.raw[|put|..] && later == coming
       else if allowance > BUFFER then
         r == SliceOutOfRange && put == [] && after.raw == s.raw && later == coming
       else
         var (read, left) := ReadOnce(coming, if allowance == 0 then 1 else allowance);
         && later == left && after.raw == s.raw && put == (if allowance == 0 then [] else BytesOf(read))
         && r == BodyOutcome(read, room)
  }

  // -----------------------------------------------------------------------
  // When a head that exceeds the limit is passed on

  ghost predicate QueuesOverlong(before: Stage, after: Stage, limit: nat) {
    && |after.items| == |before.items| + 1 && after.items[|before.items|].HeadItem?
    && |after.items[|before.items|].head| > limit
  }

  /** The guard: a complete, valid head that has exceeded the limit. */
  ghost predicate OverlongAndComplete(s: Stage, limit: nat, valid: seq<byte> -> bool) {
    s.phase.Head? && HeaderEnd(s.head).Some? && |s.head| > limit && valid(s.head)
  }

  /** The bytes at hand are looked at for an end first and measured then. */
  lemma TurnQueuesOverlong(s: Stage, limit: nat, valid: seq<byte> -> bool)
    requires s.phase.Head? && WholeHeads(s.items, s.head, valid)
    ensures QueuesOverlong(s, Turned(s, Some(limit), valid).0, limit) <==> OverlongAndComplete(s, limit, valid)
  {
    hide EndsAt, HeaderEnd, Sanitize;
    if HeaderEnd(s.head).Some? {
      FillComplete(s.head, s.raw, Some(limit), HeaderEnd(s.head).value);
    } else if FillOf(s.head, s.raw, Some(limit)).Ends? {
      EndIsWhole(s.head, s.raw, Some(limit));
    }
  }

  /** So a read, however much it takes from the socket, passes on a head over the
      limit exactly when that head was there and complete before. */
  lemma {:induction false} ReadQueuesOverlong(s: Stage, coming: seq<SocketRead>, limit: nat, valid: seq<byte> -> bool)
    requires s.phase.Head? && WholeHeads(s.items, s.head, valid)
    ensures QueuesOverlong(s, HeadResult(s, coming, Some(limit), valid).1, limit) <==>
              OverlongAndComplete(s, limit, valid)
    decreases Weight(coming)
  {
    hide EndsAt, HeaderEnd, Sanitize, ReadOnce, QueuesOverlong, WholeHeads, FillOf, Turned, Weight;
    TurnQueuesOverlong(s, limit, valid);
    TurnedFacts(s, Some(limit), valid);
    var (after, fault) := Turned(s, Some(limit), valid);
    if fault.None? && after.output == [] {
      RunsWithinLimit(s, limit, valid);
      ReadLess(coming);
      var (read, later) := ReadOnce(coming, BUFFER);
      var next := after.(raw := BytesOf(read));
      SameItems(s, after, after, limit, valid);
      if BytesOf(read) != [] {
        ReadQueuesOverlong(next, later, limit, valid);
        SameItems(s, next, HeadResult(next, later, Some(limit), valid).1, limit, valid);
      }
    }
  }

  lemma RunsWithinLimit(s: Stage, limit: nat, valid: seq<byte> -> bool)
    requires s.phase.Head? && WholeHeads(s.items, s.head, valid) && FillOf(s.head, s.raw, Some(limit)).Runs?
    ensures var after := Turned(s, Some(limit), valid).0;
            WholeHeads(after.items, after.head, valid) && |after.head| <= limit
  {
    hide EndsAt, Sanitize;
  }

  lemma BodyQueuesNothing(s: Stage, coming: seq<SocketRead>, room: nat, r: Poll, put: seq<byte>,
                          after: Stage, later: seq<SocketRead>, limit: nat)
    requires s.phase.Body? && BodyResult(s, coming, room, r, put, after, later)
    ensures !QueuesOverlong(s, after, limit)
  {}

  /** Only what changes the items can queue a head. */
  lemma SameItems(s: Stage, next: Stage, after: Stage, limit: nat, valid: seq<byte> -> bool)
    ensures next.items == s.items ==>
              !QueuesOverlong(s, next, limit)
              && (QueuesOverlong(next, after, limit) <==> QueuesOverlong(s, after, limit))
    ensures after.items == next.items ==>
              !QueuesOverlong(next, after, limit)
              && (QueuesOverlong(s, after, limit) <==> QueuesOverlong(s, next, limit))
    ensures !next.phase.Head? || |next.head| <= limit ==> !OverlongAndComplete(next, limit, valid)
  {}

  /** The head that a refusal leaves behind is complete exactly when the one byte
      too many was its last. */
  lemma RefusalLeavesComplete(s: Stage, limit: nat, valid: seq<byte> -> bool)
    requires s.phase.Head? && WholeHeads(s.items, s.head, valid) && |s.head| <= limit
    requires Turned(s, Some(limit), valid).1 == Some(HeadTooLong)
    ensures OverlongAndComplete(Turned(s, Some(limit), valid).0, limit, valid) <==>
              HeaderEnd(s.head + s.raw) == Some(limit + 1) && valid((s.head + s.raw)[..limit + 1])
  {
    hide EndsAt, HeaderEnd, Sanitize;
    var all, cut := s.head + s.raw, limit + 1;
    if HeaderEnd(all[..cut]).Some? {
      EndsInPrefix(all, cut, HeaderEnd(all[..cut]).value);
    }
    if HeaderEnd(all) == Some(cut) {
      EndsInPrefix(all, cut, cut);
    }
  }

  lemma PhaseDecides(s: Stage, coming: seq<SocketRead>, limit: Option<nat>, valid: seq<byte> -> bool, room: nat)
    ensures SliceFails(s, room) ==> s.phase.Body? && s.output == []
    ensures ByteIsLost(s, coming, room) ==> s.phase.Body? && room == 0
    ensures Spins(s, limit) ==> s.phase.Head? && s.output != []
    ensures Stuck(s, valid) ==> s.phase.Head?
    ensures limit.Some? && OverlongAndComplete(s, limit.value, valid) ==> s.phase.Head?
  {}

  lemma NothingEndsInNothing()
    ensures !EndsAt([], 0)
  {}

  /** One more head is complete, and its sanitised form is queued. */
  ghost predicate Queued(before: Stage, after: Stage) {
    && after.phase == AwaitBody && |after.items| == |before.items| + 1
    && after.items[..|before.items|] == before.items && after.items[|before.items|].HeadItem?
    && after.output == before.output + Sanitize(after.items[|before.items|].head) && after.output != []
    && after.head == []
  }

  /** The state passed on `put`, and queued at most one head before it did. */
  ghost predicate PassedOn(before: Stage, put: seq<byte>, after: Stage) {
    if after.items == before.items then after.phase == before.phase && put + after.output == before.output
    else
      && after.phase == AwaitBody && |after.items| == |before.items| + 1
      && after.items[..|before.items|] == before.items && after.items[|before.items|].HeadItem?
      && put + after.output == before.output + Sanitize(after.items[|before.items|].head)
  }

  lemma QueuedPasses(before: Stage, queued: Stage, n: nat)
    requires Queued(before, queued) && n <= |queued.output|
    ensures queued.items != before.items && queued.phase == AwaitBody && queued.output != []
    ensures PassedOn(before, queued.output[..n], queued.(output := queued.output[n..]))
    ensures PassedOn(before, [], queued)
  {
    hide Sanitize;
    assert queued.output[..n] + queued.output[n..] == queued.output;
  }

  lemma QueuedSince(before: Stage, later: Stage, queued: Stage)
    requires Queued(later, queued) && later.items == before.items && later.output == before.output
    ensures Queued(before, queued)
  {}

  lemma OutputPasses(before: Stage, n: nat)
    requires n <= |before.output|
    ensures PassedOn(before, before.output[..n], before.(output := before.output[n..]))
  {
    assert before.output[..n] + before.output[n..] == before.output;
  }

  lemma NothingPasses(before: Stage, head: seq<byte>, raw: seq<byte>)
    ensures PassedOn(before, [], before.(head := head, raw := raw))
  {}

  /** Where bytes at hand make a head complete, that is one whole head. */
  lemma EndIsWhole(head: seq<byte>, raw: seq<byte>, limit: Option<nat>)
    requires Unbroken(head) && FillOf(head, raw, limit).Ends?
    ensures var all, end := head + raw, FillOf(head, raw, limit).end;
            end <= |all| && EndsAt(all[..end], end) && Unbroken(all[..end]) && HeaderEnd(all[..end]) == Some(end)
  {
    hide HeaderEnd;
    var all, end := head + raw, FillOf(head, raw, limit).end;
    EndsInPrefix(all, end, end);
    forall e | EndsAt(all[..end], e) ensures e == end {
      EndsInPrefix(all, end, e);
      if HeaderEnd(head).Some? {
        assert all[..|head|] == head;
        EndsInPrefix(all, |head|, e);
        assert EndsAt(head, HeaderEnd(head).value);
      }
    }
    FirstEndIsUnique(all[..end], Some(end));
  }

  /** How many body bytes a read may pass on. */
  function Allowance(remaining: Option<nat>, room: nat): nat {
    Least(if remaining.None? then 1 else remaining.value, room)
  }

  class SanitizedIo {
    const headLimit: Option<nat>
    const valid: seq<byte> -> bool
    var phase: Phase
    var head: seq<byte>
    var output: seq<byte>
    var raw: seq<byte>
    var coming: seq<SocketRead>
    ghost const source: seq<byte>
    ghost var taken: seq<byte>
    ghost var delivered: seq<byte>
    ghost var items: seq<Item>
    ghost var declared: Option<nat>
    ghost var bodyBytes: nat
    ghost var overrun: bool

    ghost function State(): Stage
      reads this
    {
      Stage(phase, items, head, output, raw)
    }

    /** The accounts of what was read from the socket. */
    ghost predicate Sound()
      reads this
    {
      && Conserves(taken, delivered, items, head, output, raw)
      && WholeHeads(items, head, valid)
      && BodyFits(phase, declared, bodyBytes)
      && (!phase.Head? ==> head == [])
      && (!overrun <==> WithinLimit(items, head, headLimit))
    }

    /** And what was read is all that the socket has yielded. */
    ghost predicate Valid()
      reads this
    {
      Sound() && taken + Stream(coming) == source
    }

    /** One byte was read and has no place in the accounts. */
    ghost predicate ByteMissing()
      reads this
    {
      exists b :: taken + [b] + Stream(coming) == source
    }

    constructor (headLimit: Option<nat>, valid: seq<byte> -> bool, coming: seq<SocketRead>)
      ensures Valid() && source == Stream(coming) && taken == [] && delivered == [] && !overrun
      ensures State() == Stage(Head, [], [], [], []) && this.coming == coming
      ensures this.headLimit == headLimit && this.valid == valid
    {
      this.headLimit := headLimit;
      this.valid := valid;
      this.coming := coming;
      source := Stream(coming);
      phase := Head;
      head, output, raw := [], [], [];
      taken, delivered, items := [], [], [];
      declared := None;
      bodyBytes := 0;
      overrun := false;
    }

    method BeginBody(rawRemaining: Option<nat>)
      requires Valid() && phase.AwaitBody?
      modifies `phase, `declared, `bodyBytes
      ensures Valid() && declared == rawRemaining && bodyBytes == 0
      ensures phase == if rawRemaining == Some(0) then AwaitNext else Body(rawRemaining)
    {
      phase := if rawRemaining == Some(0) then AwaitNext else Body(rawRemaining);
      declared := rawRemaining;
      bodyBytes := 0;
    }

    method FinishRequest()
      requires Valid()
      modifies `phase
      ensures Valid() && phase == Head
    {
      phase := Head;
    }

    /** Moves output into a destination with `room` free bytes. */
    method CopyOutput(room: nat) returns (put: seq<byte>)
      requires Valid()
      modifies `output, `delivered
      ensures Valid() && put == old(output)[..Least(room, |old(output)|)]
      ensures output == old(output)[|put|..] && delivered == old(delivered) + put
    {
      hide Conserves, WholeHeads, WithinLimit, Stream;
      var amount := Least(room, |output|);
      OutputConserves(taken, delivered, items, head, output, raw, amount);
      put := output[..amount];
      output := output[amount..];
      delivered := delivered + put;
    }

    /** A head that ends at `end` is checked, sanitised and queued. There is
        never anything behind its end. */
    method FinishHead(end: nat) returns (ok: bool)
      requires Valid() && phase == Head && FirstEnd(head, Some(end))
      modifies `head, `output, `raw, `phase, `items
      ensures Valid() && raw == old(raw) && end == |old(head)|
      ensures ok <==> valid(old(head))
      ensures State() == if ok then Stage(AwaitBody, old(items) + [HeadItem(old(head))], [],
                                          old(output) + Sanitize(old(head)), raw)
                         else old(State())
    {
      hide Conserves, WholeHeads, FirstEnd, Sanitize, Stream;
      HeadIsWhole(items, head, valid, end);
      var remainder := head[end..];
      head := head[..end];
      raw := raw + remainder;
      assert head == old(head) && raw == old(raw);
      if !valid(head) {
        return false;
      }
      HeadConserves(taken, delivered, items, head, output, raw);
      HeadWithinLimit(items, head, headLimit);
      items := items + [HeadItem(head)];
      output := output + Sanitize(head);
      head := [];
      phase := AwaitBody;
      ok := true;
    }

    /** Moves raw bytes into the head, one by one, until it is complete, too long
        or the raw buffer is empty. */
    method FillHead() returns (fault: Option<Reason>)
      requires Valid() && phase == Head && FirstEnd(head, None)
      requires headLimit.Some? ==> |head| <= headLimit.value
      modifies `head, `output, `raw, `phase, `items, `overrun
      ensures Valid() && (State(), fault) == old(Turned(State(), headLimit, valid))
      ensures overrun == (old(overrun) || fault == Some(HeadTooLong))
    {
      hide Conserves, WholeHeads, FirstEnd, Sanitize, Stream, FillOf;
      ghost var all := head + raw;
      ghost var fill := FillOf(head, raw, headLimit);
      while raw != []
        invariant Valid() && State() == old(State()).(head := head, raw := raw) && FirstEnd(head, None)
        invariant overrun == old(overrun) && (headLimit.Some? ==> |head| <= headLimit.value)
        invariant head + raw == all && FillOf(head, raw, headLimit) == fill
        decreases |raw|
      {
        PushConserves(taken, delivered, items, head, output, raw);
        PushIsWhole(items, head, valid, raw[0]);
        ghost var before, left := head, raw;
        head := head + [raw[0]];
        raw := raw[1..];
        if headLimit.Some? && |head| > headLimit.value {
          FillTooLong(before, left, headLimit.value);
          assert all == head + raw && all[..|head|] == head && all[|head|..] == raw;
          overrun := true;
          return Some(HeadTooLong);
        }
        var end := FindHeaderEnd(head);
        if end.Some? {
          FillEnds(before, left, headLimit, end.value);
          var ok := FinishHead(end.value);
          if !ok {
            return Some(HeadInvalid);
          }
          return None;
        }
        FillMoves(before, left, headLimit);
      }
      FillRuns(head, headLimit);
      assert head + [] == head;
      fault := None;
    }

    /** Counts body bytes off what remains, and no further than to nothing. */
    method ReduceBodyRemaining(consumed: nat)
      modifies `phase, `bodyBytes
      ensures bodyBytes == old(bodyBytes) + consumed
      ensures phase == match old(phase)
                       case Body(Some(remaining)) =>
                         if consumed >= remaining then AwaitNext else Body(Some(remaining - consumed))
                       case _ => old(phase)
      ensures old(BodyFits(phase, declared, bodyBytes) && phase.Body?
                  && (phase.rawRemaining.Some? ==> consumed <= phase.rawRemaining.value)) ==>
                BodyFits(phase, declared, bodyBytes)
    {
      if phase.Body? && phase.rawRemaining.Some? {
        var remaining := phase.rawRemaining.value;
        remaining := if consumed < remaining then remaining - consumed else 0;
        phase := if remaining == 0 then AwaitNext else Body(Some(remaining));
      }
      bodyBytes := bodyBytes + consumed;
    }

    /** Hands `n` raw bytes to the engine as body bytes. */
    method Deliver(n: nat)
      requires Valid() && phase.Body? && output == [] && 1 <= n <= |raw|
      requires phase.rawRemaining.Some? ==> n <= phase.rawRemaining.value
      modifies `raw, `items, `delivered, `phase, `bodyBytes
      ensures Valid() && raw == old(raw)[n..] && delivered == old(delivered) + old(raw)[..n]
      ensures items == old(items) + [BodyItem(old(raw)[..n])] && bodyBytes == old(bodyBytes) + n
      ensures phase == if old(phase).rawRemaining == Some(n) then AwaitNext
                       else if old(phase).rawRemaining.None? then old(phase)
                       else Body(Some(old(phase).rawRemaining.value - n))
    {
      hide Conserves, WholeHeads, Stream;
      BodyConserves(taken, delivered, items, raw, n);
      BodyIsNoHead(items, head, valid, raw[..n]);
      BodyWithinLimit(items, head, raw[..n], headLimit);
      items := items + [BodyItem(raw[..n])];
      delivered := delivered + raw[..n];
      raw := raw[n..];
      ReduceBodyRemaining(n);
    }

    /** The body phase of a read. */
    method PollBody(room: nat) returns (r: Poll, put: seq<byte>)
      requires Valid() && phase.Body? && (room == 0 || output == [])
      modifies `coming, `taken, `raw, `items, `delivered, `phase, `bodyBytes
      ensures if r == NoRoomForByte then Sound() else Valid()
      ensures r == SliceOutOfRange <==> SliceFails(old(State()), room)
      ensures r == NoRoomForByte <==> ByteIsLost(old(State()), old(coming), room)
      ensures r == NoRoomForByte ==> taken == old(taken) && ByteMissing()
      ensures old(taken) <= taken
      ensures delivered == old(delivered) + put && |put| <= old(Allowance(phase.rawRemaining, room))
      ensures declared == old(declared) && bodyBytes == old(bodyBytes) + |put|
      ensures overrun == old(overrun) && (r.Ready? || put == [])
      ensures r != Endless && (r.Failed? ==> r == Failed(SocketError))
      ensures BodyResult(old(State()), old(coming), room, r, put, State(), coming)
    {
      hide Conserves, WholeHeads, WithinLimit, Stream, ReadOnce;
      SomethingRemains(phase, declared, bodyBytes);
      var allowance := Least(if phase.rawRemaining.None? then 1 else phase.rawRemaining.value, room);
      var buffered := Least(allowance, |raw|);
      if buffered != 0 {
        put := raw[..buffered];
        Deliver(buffered);
        return Ready, put;
      }
      var capacity := if allowance < 1 then 1 else allowance;
      if capacity > BUFFER {
        return SliceOutOfRange, [];
      }
      r, put := ReadBody(capacity, room);
    }

    /** A body read that goes to the socket, for up to `capacity` bytes. */
    method ReadBody(capacity: nat, room: nat) returns (r: Poll, put: seq<byte>)
      requires Valid() && phase.Body? && if room == 0 then capacity == 1 else output == [] && raw == []
      requires 1 <= capacity && (phase.rawRemaining.Some? ==> capacity <= phase.rawRemaining.value)
      requires room > 0 ==> capacity <= room
      modifies `coming, `taken, `raw, `items, `delivered, `phase, `bodyBytes
      ensures if r == NoRoomForByte then Sound() else Valid()
      ensures r == NoRoomForByte <==> room == 0 && old(coming) != [] && BytesOf(old(coming)[0]) != []
      ensures r == NoRoomForByte ==> taken == old(taken) && ByteMissing()
      ensures old(taken) <= taken
      ensures delivered == old(delivered) + put && output == old(output) && declared == old(declared)
      ensures raw == old(raw) && bodyBytes == old(bodyBytes) + |put| && overrun == old(overrun)
      ensures items == if put == [] then old(items) else old(items) + [BodyItem(put)]
      ensures phase == if old(phase).rawRemaining == Some(|put|) then AwaitNext
                       else if old(phase).rawRemaining.None? then old(phase)
                       else Body(Some(old(phase).rawRemaining.value - |put|))
      ensures var (read, later) := old(ReadOnce(coming, capacity));
              && coming == later && put == (if room == 0 then [] else BytesOf(read)) && |put| <= capacity
              && r == BodyOutcome(read, room)
    {
      hide Conserves, WholeHeads, WithinLimit, Stream, ReadOnce;
      SomethingRemains(phase, declared, bodyBytes);
      ReadAccount(source, taken, coming, capacity);
      FirstRead(coming, capacity);
      var (read, later) := ReadOnce(coming, capacity);
      coming := later;
      match read {
        case Received(bytes) =>
          if bytes == [] {
            return Ready, [];
          }
          if |bytes| > room {
            assert bytes == [bytes[0]];
            return NoRoomForByte, [];
          }
          ReadConserves(taken, delivered, items, head, output, raw, bytes);
          taken := taken + bytes;
          assert raw == [] && [] + bytes == bytes;
          raw := bytes;
          assert raw[..|bytes|] == bytes && raw[|bytes|..] == [];
          Deliver(|bytes|);
          return Ready, bytes;
        case SocketFailed => return Failed(SocketError), [];
        case NothingYet => return Pending, [];
      }
    }

    /** One turn of the head phase: the bytes at hand first, and a read of the
        socket when they leave nothing to pass on. No outcome means that the
        loop goes on. */
    method HeadTurn() returns (outcome: Option<Poll>)
      requires Valid() && phase == Head
      modifies this
      ensures Valid() && delivered == old(delivered) && declared == old(declared) && bodyBytes == old(bodyBytes)
      ensures var (after, fault) := old(Turned(State(), headLimit, valid));
              && overrun == (old(overrun) || fault == Some(HeadTooLong))
              && if fault.Some? || after.output != [] then
                   State() == after && coming == old(coming) && taken == old(taken)
                   && outcome == if fault.Some? then Some(Failed(fault.value)) else None
                 else
                   var (read, later) := old(ReadOnce(coming, BUFFER));
                   && State() == after.(raw := BytesOf(read)) && coming == later && taken == old(taken) + BytesOf(read)
                   && (outcome.None? <==> BytesOf(read) != []) && (outcome == Some(Ready) <==> read == Received([]))
                   && (outcome == Some(Pending) <==> read == NothingYet)
                   && (outcome == Some(Failed(SocketError)) <==> read == SocketFailed)
    {
      hide Conserves, WholeHeads, FirstEnd, Sanitize, Stream, ReadOnce, FillOf, Turned;
      TurnedFacts(State(), headLimit, valid);
      var end := FindHeaderEnd(head);
      if end.Some? {
        TurnedComplete(State(), headLimit, valid, end.value);
        var ok := FinishHead(end.value);
        return if ok then None else Some(Failed(HeadInvalid));
      }
      if headLimit.Some? && |head| > headLimit.value {
        TurnedOverrun(State(), headLimit.value, valid);
        overrun := true;
        return Some(Failed(HeadTooLong));
      }
      var fault := FillHead();
      if fault.Some? {
        return Some(Failed(fault.value));
      }
      if output != [] {
        return None;
      }
      outcome := ReadHead();
    }

    /** A read of the socket for more of a head. */
    method ReadHead() returns (outcome: Option<Poll>)
      requires Valid() && raw == []
      modifies `coming, `taken, `raw
      ensures Valid()
      ensures var (read, later) := old(ReadOnce(coming, BUFFER));
              && raw == BytesOf(read) && coming == later && taken == old(taken) + BytesOf(read)
              && (outcome.None? <==> BytesOf(read) != []) && (outcome == Some(Ready) <==> read == Received([]))
              && (outcome == Some(Pending) <==> read == NothingYet)
              && (outcome == Some(Failed(SocketError)) <==> read == SocketFailed)
    {
      hide Conserves, WholeHeads, WithinLimit, Stream, ReadOnce;
      ReadAccount(source, taken, coming, BUFFER);
      var (read, later) := ReadOnce(coming, BUFFER);
      coming := later;
      match read {
        case Received(bytes) =>
          if bytes == [] {
            return Some(Ready);
          }
          ReadConserves(taken, delivered, items, head, output, raw, bytes);
          taken := taken + bytes;
          raw := raw + bytes;
          outcome := None;
        case SocketFailed => outcome := Some(Failed(SocketError));
        case NothingYet => outcome := Some(Pending);
      }
    }

    /** A turn of the head phase as the loop sees it. */
    method HeadStep() returns (outcome: Option<Poll>)
      requires Valid() && phase == Head
      modifies this
      ensures Valid() && delivered == old(delivered) && declared == old(declared) && bodyBytes == old(bodyBytes)
      ensures old(taken) <= taken
      ensures overrun == (old(overrun) || outcome == Some(Failed(HeadTooLong)))
      ensures outcome.Some? ==> outcome.value.Ready? || outcome.value.Failed? || outcome.value.Pending?
      ensures outcome.None? && !phase.Head? ==> Queued(old(State()), State()) && coming == old(coming)
      ensures outcome.Some? || phase.Head? ==> State() == old(State()).(head := head, raw := raw)
      ensures outcome.None? && phase.Head? && output == [] ==> Weight(coming) < old(Weight(coming))
      ensures outcome.None? && phase.Head? && output != [] ==> coming == old(coming)
      ensures outcome.None? && phase.Head? && output != [] <==> Spins(old(State()), headLimit)
      ensures Spins(old(State()), headLimit) ==> Spins(State(), headLimit)
      ensures old(HeadResult(State(), coming, headLimit, valid)) ==
                if outcome.None? && phase.Head? && output == [] then HeadResult(State(), coming, headLimit, valid)
                else (outcome, State(), coming)
      ensures outcome == Some(Failed(HeadInvalid)) ==> Stuck(State(), valid)
      ensures Stuck(old(State()), valid) ==>
                outcome == Some(Failed(HeadInvalid)) && State() == old(State()) && coming == old(coming)
      ensures outcome != Some(Failed(TimedOut))
      ensures headLimit.Some? ==>
                (QueuesOverlong(old(State()), State(), headLimit.value) <==>
                 OverlongAndComplete(old(State()), headLimit.value, valid))
      ensures headLimit.Some? && outcome.None? && phase.Head? ==> |head| <= headLimit.value
    {
      hide Conserves, WholeHeads, WithinLimit, HeaderEnd, Sanitize, BodyFits, Weight, Stream, ReadOnce, Turned, FillOf;
      TurnedFacts(State(), headLimit, valid);
      ReadLess(coming);
      if headLimit.Some? {
        TurnQueuesOverlong(State(), headLimit.value, valid);
        if FillOf(head, raw, headLimit).Runs? {
          RunsWithinLimit(State(), headLimit.value, valid);
        }
      }
      outcome := HeadTurn();
    }

    /** One turn of the loop, after the timer: waiting output first, then what
        the phase asks for. */
    method Turn(room: nat) returns (done: bool, r: Poll, put: seq<byte>)
      requires Valid()
      modifies this
      ensures if r == NoRoomForByte then Sound() else Valid()
      ensures delivered == old(delivered) + put && |put| <= room && (r.Ready? || put == [])
      ensures old(taken) <= taken
      ensures declared == old(declared) && overrun == (old(overrun) || r == Failed(HeadTooLong))
      ensures r == SliceOutOfRange <==> SliceFails(old(State()), room)
      ensures r == NoRoomForByte <==> ByteIsLost(old(State()), old(coming), room)
      ensures r == NoRoomForByte ==> taken == old(taken) && ByteMissing()
      ensures r != Endless && r != Failed(TimedOut) && (!done ==> r == Pending)
      ensures room > 0 && old(output) != [] ==>
                done && r.Ready? && put == old(output)[..Least(room, |old(output)|)] && coming == old(coming)
                && State() == old(State()).(output := old(output)[|put|..])
      ensures (room == 0 || old(output) == []) && (old(phase).AwaitBody? || old(phase).AwaitNext?) ==>
                done && r == Pending && State() == old(State()) && coming == old(coming)
      ensures (room == 0 || old(output) == []) && old(phase).Body? ==>
                && done && BodyResult(old(State()), old(coming), room, r, put, State(), coming)
                && bodyBytes == old(bodyBytes) + |put|
      ensures (room == 0 || old(output) == []) && old(phase).Head? ==> put == [] && bodyBytes == old(bodyBytes)
      ensures (room == 0 || old(output) == []) && old(phase).Head? && done ==>
                State() == old(State()).(head := head, raw := raw)
      ensures (room == 0 || old(output) == []) && old(phase).Head? ==>
                old(HeadResult(State(), coming, headLimit, valid)) ==
                if !done && phase.Head? && output == [] then HeadResult(State(), coming, headLimit, valid)
                else (if done then Some(r) else None, State(), coming)
      ensures !done && phase.Head? ==> State() == old(State()).(head := head, raw := raw)
      ensures !done && !phase.Head? ==> Queued(old(State()), State()) && coming == old(coming)
      ensures !done && phase.Head? && output == [] ==> Weight(coming) < old(Weight(coming))
      ensures !done && phase.Head? && output != [] ==> coming == old(coming)
      ensures !done && phase.Head? && output != [] <==> room == 0 && Spins(old(State()), headLimit)
      ensures room == 0 && Spins(old(State()), headLimit) ==> Spins(State(), headLimit)
      ensures headLimit.Some? ==>
                (QueuesOverlong(old(State()), State(), headLimit.value) <==>
                 (room == 0 || old(output) == []) && OverlongAndComplete(old(State()), headLimit.value, valid))
      ensures headLimit.Some? && !done && phase.Head? ==> |head| <= headLimit.value
      ensures r == Failed(HeadInvalid) ==> Stuck(State(), valid) && items == old(items)
      ensures (room == 0 || old(output) == []) && Stuck(old(State()), valid) ==>
                done && r == Failed(HeadInvalid) && State() == old(State()) && coming == old(coming)
    {
      hide Conserves, WholeHeads, WithinLimit, FirstEnd, HeaderEnd, Sanitize, BodyFits, Weight, Stream;
      hide ReadOnce, Turned, FillOf, SliceFails, ByteIsLost, Spins, Stuck, Valid, Sound, ByteMissing, Queued;
      hide HeadResult, BodyResult, QueuesOverlong, OverlongAndComplete;
      PhaseDecides(State(), coming, headLimit, valid, room);
      put := CopyOutput(room);
      ghost var limit := if headLimit.Some? then headLimit.value else 0;
      SameItems(old(State()), State(), State(), limit, valid);
      if put != [] {
        return true, Ready, put;
      }
      match phase {
        case Head =>
          var outcome := HeadStep();
          return outcome.Some?, if outcome.Some? then outcome.value else Pending, [];
        case AwaitBody => return true, Pending, [];
        case AwaitNext => return true, Pending, [];
        case Body(_) =>
          r, put := PollBody(room);
          BodyQueuesNothing(old(State()), old(coming), room, r, put, State(), coming, limit);
          done := true;
      }
    }

    /** One read by the engine. Before each turn of the loop the idle timer may
        fire: `patience` says after how many turns it does. */
    method PollRead(room: nat, patience: Option<nat>) returns (r: Poll, put: seq<byte>)
      requires Valid()
      modifies this
      ensures if r == NoRoomForByte then Sound() else Valid()
      ensures delivered == old(delivered) + put && |put| <= room && (r.Ready? || put == [])
      ensures r == SliceOutOfRange <==> patience != Some(0) && SliceFails(old(State()), room)
      ensures r == NoRoomForByte <==> patience != Some(0) && ByteIsLost(old(State()), old(coming), room)
      ensures r == Endless <==> patience.None? && room == 0 && Spins(old(State()), headLimit)
      ensures r == NoRoomForByte ==> taken == old(taken) && ByteMissing()
      ensures old(taken) <= taken && declared == old(declared)
      ensures overrun == (old(overrun) || r == Failed(HeadTooLong))
      // the timer, and output that is waiting
      ensures r == Failed(TimedOut) ==> patience.Some?
      ensures patience == Some(0) ==>
                r == Failed(TimedOut) && put == [] && State() == old(State()) && coming == old(coming)
      ensures patience != Some(0) && room > 0 && old(output) != [] ==>
                r.Ready? && put == old(output)[..Least(room, |old(output)|)] && coming == old(coming)
                && State() == old(State()).(output := old(output)[|put|..])
      // nothing more to pass on, by phase
      ensures patience != Some(0) && (room == 0 || old(output) == [])
              && (old(phase).AwaitBody? || old(phase).AwaitNext?) ==>
                r == Pending && State() == old(State()) && coming == old(coming)
      ensures patience != Some(0) && (room == 0 || old(output) == []) && old(phase).Body? ==>
                && BodyResult(old(State()), old(coming), room, r, put, State(), coming)
                && bodyBytes == old(bodyBytes) + |put|
      ensures r != Failed(TimedOut) && r != Endless && (room == 0 || old(output) == []) && old(phase).Head? ==>
                var (outcome, after, later) := old(HeadResult(State(), coming, headLimit, valid));
                && coming == later && put == (if outcome.Some? then [] else after.output[..Least(room, |after.output|)])
                && State() == after.(output := after.output[|put|..])
                && r == if outcome.Some? then outcome.value else if room > 0 then Ready else Pending
      ensures old(phase).Head? ==> PassedOn(old(State()), put, State())
      // a head over the limit passes exactly when it was complete before the read
      ensures headLimit.Some? ==>
                (QueuesOverlong(old(State()), State(), headLimit.value) <==>
                 patience != Some(0) && (room == 0 || old(output) == [])
                 && OverlongAndComplete(old(State()), headLimit.value, valid))
      ensures r == Failed(HeadInvalid) ==> Stuck(State(), valid) && items == old(items)
      ensures patience != Some(0) && (room == 0 || old(output) == []) && Stuck(old(State()), valid) ==>
                r == Failed(HeadInvalid) && State() == old(State()) && coming == old(coming)
    {
      hide Conserves, WholeHeads, WithinLimit, FirstEnd, HeaderEnd, Sanitize, BodyFits, Weight, Stream;
      hide ReadOnce, Turned, FillOf, SliceFails, ByteIsLost, Spins, Stuck, Valid, ByteMissing, HeadResult, BodyResult;
      hide Queued, PassedOn, QueuesOverlong, OverlongAndComplete;
      PhaseDecides(State(), coming, headLimit, valid, room);
      OutputPasses(State(), Least(room, |output|));
      var left := patience;
      ghost var first, limit := true, if headLimit.Some? then headLimit.value else 0;
      while true
        invariant Valid() && delivered == old(delivered) && overrun == old(overrun) && old(taken) <= taken
        invariant declared == old(declared) && bodyBytes == old(bodyBytes)
        invariant first ==> left == patience && State() == old(State()) && coming == old(coming) && taken == old(taken)
        invariant !first ==> old(phase).Head? && (room == 0 || old(output) == []) && patience != Some(0)
                             && !Stuck(old(State()), valid)
        invariant !first ==> if phase.Head? then State() == old(State()).(head := head, raw := raw)
                             else Queued(old(State()), State())
        invariant !first && left.None? ==> !Spins(old(State()), headLimit) && (phase.Head? ==> output == [])
        invariant !first && phase.Head? && output != [] ==> room == 0 && Spins(State(), headLimit)
        invariant !first && phase.Head? && output == [] ==>
                    HeadResult(State(), coming, headLimit, valid) == old(HeadResult(State(), coming, headLimit, valid))
        invariant !first && !phase.Head? ==>
                    old(HeadResult(State(), coming, headLimit, valid)) == (None, State(), coming)
        invariant headLimit.Some? && !first ==>
                    (QueuesOverlong(old(State()), State(), headLimit.value) <==>
                     OverlongAndComplete(old(State()), headLimit.value, valid))
        invariant headLimit.Some? && !first && phase.Head? ==> |head| <= headLimit.value
        invariant left.None? <==> patience.None?
        decreases Weight(coming), if phase.Head? then 1 else 0, if left.Some? then left.value else 0
      {
        SameItems(old(State()), State(), State(), limit, valid);
        if phase.Head? || first {
          NothingPasses(old(State()), head, raw);
        } else {
          QueuedPasses(old(State()), State(), Least(room, |output|));
        }
        if left == Some(0) {
          return Failed(TimedOut), [];
        }
        left := if left.Some? then Some(left.value - 1) else None;
        PhaseDecides(State(), coming, headLimit, valid, room);
        ghost var was := State();
        var done;
        done, r, put := Turn(room);
        SameItems(old(State()), was, State(), limit, valid);
        if done {
          NothingPasses(old(State()), head, raw);
          return;
        }
        if !phase.Head? {
          QueuedSince(old(State()), was, State());
        }
        if phase == Head && output != [] && left.None? {
          NothingPasses(old(State()), head, raw);
          return Endless, [];
        }
        first := false;
      }
    }
  }

  // -----------------------------------------------------------------------
  // Inputs on which reads come to grief

  const EMPTY_HEAD: seq<byte> := [CR, LF, CR, LF]

  lemma EmptyHeadFacts()
    ensures FillOf([], [], None) == Runs && FillOf([], [], Some(3)) == Runs
    ensures FillOf([], EMPTY_HEAD, None) == Ends(4) && FillOf([], EMPTY_HEAD, Some(3)) == TooLong
    ensures FillOf(EMPTY_HEAD, [], Some(3)) == Ends(4)
    ensures Sanitize(EMPTY_HEAD) == EMPTY_HEAD && EMPTY_HEAD[..4] == EMPTY_HEAD && EMPTY_HEAD[4..] == []
    ensures [] + EMPTY_HEAD == EMPTY_HEAD && EMPTY_HEAD + [] == EMPTY_HEAD
  {
    hide HeaderEnd;
    FirstEndIsUnique([], None);
    assert EndsAt(EMPTY_HEAD, 4);
    FirstEndIsUnique(EMPTY_HEAD, Some(4));
    assert [] + EMPTY_HEAD == EMPTY_HEAD && EMPTY_HEAD + [] == EMPTY_HEAD;
    assert LineBreakAt(EMPTY_HEAD, 0);
    assert LineEnd(EMPTY_HEAD, 0) == Some(0);
  }

  /** Reading that head: one turn that reads it, and one that queues it. */
  lemma EmptyHeadRead(more: seq<SocketRead>, valid: seq<byte> -> bool)
    requires valid(EMPTY_HEAD)
    ensures var start := Stage(Head, [], [], [], []);
            HeadResult(start, [Received(EMPTY_HEAD)] + more, None, valid) ==
            (None, Stage(AwaitBody, [HeadItem(EMPTY_HEAD)], [], EMPTY_HEAD, []), more)
  {
    hide FillOf, Sanitize;
    EmptyHeadFacts();
    var coming := [Received(EMPTY_HEAD)] + more;
    assert coming[1..] == more;
    var first, second := Stage(Head, [], [], [], []), Stage(Head, [], [], [], EMPTY_HEAD);
    assert first.head + first.raw == [] && second.head + second.raw == EMPTY_HEAD;
    assert [] + [HeadItem(EMPTY_HEAD)] == [HeadItem(EMPTY_HEAD)];
    assert Turned(first, None, valid) == (first, None);
    assert ReadOnce(coming, BUFFER) == (Received(EMPTY_HEAD), more);
    assert HeadResult(first, coming, None, valid) == HeadResult(second, more, None, valid);
  }

  /** A connection that has read one head and waits for its body to begin. */
  method AfterHead(more: seq<SocketRead>) returns (io: SanitizedIo)
    ensures fresh(io) && io.Valid() && io.headLimit.None? && io.coming == more
    ensures io.phase == AwaitBody && io.head == [] && io.raw == [] && io.output == EMPTY_HEAD
  {
    hide FillOf, Sanitize;
    EmptyHeadFacts();
    var coming := [Received(EMPTY_HEAD)] + more;
    assert coming[1..] == more;
    io := new SanitizedIo(None, _ => true, coming);
    EmptyHeadRead(more, io.valid);
    var _, _ := io.PollRead(0, None);
  }

  /** A declared body longer than the buffer, and as much room. */
  method SliceMayFail() returns (r: Poll)
    ensures r == SliceOutOfRange
  {
    var io := AfterHead([]);
    var _, _ := io.PollRead(|io.output|, None);
    io.BeginBody(Some(BUFFER + 1));
    var put;
    r, put := io.PollRead(BUFFER + 1, None);
  }

  /** A body byte that arrives when there is no room. */
  method ByteMayBeLost() returns (r: Poll)
    ensures r == NoRoomForByte
  {
    var io := AfterHead([Received([0x41])]);
    io.BeginBody(None);
    var put;
    r, put := io.PollRead(0, None);
  }

  /** A head that was not picked up before its request was finished. */
  method LoopMaySpin() returns (r: Poll)
    ensures r == Endless
  {
    hide FillOf;
    EmptyHeadFacts();
    var io := AfterHead([]);
    io.FinishRequest();
    var put;
    r, put := io.PollRead(0, None);
  }

  /** A head whose last byte is the one too many is refused, and passed on by
      the next read. */
  method OverlongHeadIsQueued() returns (refused: Poll, passed: Poll, put: seq<byte>)
    ensures refused == Failed(HeadTooLong) && passed == Ready && put == EMPTY_HEAD && |put| > 3
  {
    hide FillOf, Sanitize;
    EmptyHeadFacts();
    var io := new SanitizedIo(Some(3), _ => true, [Received(EMPTY_HEAD)]);
    var first, second := Stage(Head, [], [], [], []), Stage(Head, [], [], [], EMPTY_HEAD);
    var third := Stage(Head, [], EMPTY_HEAD, [], []);
    assert ReadOnce(io.coming, BUFFER) == (Received(EMPTY_HEAD), []);
    assert Turned(first, Some(3), io.valid) == (first, None);
    assert Turned(second, Some(3), io.valid) == (third, Some(HeadTooLong));
    refused, put := io.PollRead(4, None);
    passed, put := io.PollRead(4, None);
  }
}
