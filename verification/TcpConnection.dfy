/** The receive buffer of a TCP connection: bytes a callback leaves over are moved to the front, and the
    next read goes behind them. */
module TcpConnections {
  import opened Bits

  datatype State = Prestart | Waiting | Operating | Halted | Closed

  datatype Error = NoError | Aborted | Failed

  /** A read that ended. halted, haltedAfter and haltedLate are what the halt flag shows when it is looked
      at; used is what the data callback returns; retry is whether an error callback asks to go on. */
  datatype Event = Event(bytes: seq<byte>, error: Error, used: nat, retry: bool,
                         halted: bool, haltedAfter: bool, haltedLate: bool)

  // ---- On values ----

  /** The connection as its stream sees it: all bytes taken in, all that were used, those left over. */
  datatype Stream = Stream(received: seq<byte>, consumed: seq<byte>, resid: seq<byte>, state: State)

  /** Whether the data callback is called. */
  predicate Taken(e: Event) {
    !e.halted && (e.error == NoError || (e.error == Failed && |e.bytes| > 0))
  }

  /** What is left when a callback has used some of the bytes it was shown, or claims more than all. */
  function Left(shown: seq<byte>, used: nat): seq<byte> {
    if used < |shown| then shown[used..] else []
  }

  function Used(shown: seq<byte>, used: nat): seq<byte> {
    if used < |shown| then shown[..used] else shown
  }

  /** The state when a read has been started, or not. */
  function Started(state: State, halted: bool, haltedLate: bool): State {
    if halted then state
    else if state == Prestart || state == Waiting then if haltedLate then Halted else Operating
    else state
  }

  function After(e: Event): State {
    if !e.halted && (e.error == NoError || (e.error == Failed && e.retry))
    then Started(Waiting, e.haltedAfter, e.haltedLate)
    else Halted
  }

  function Step(s: Stream, e: Event): Stream {
    if Taken(e) then
      var shown := s.resid + e.bytes;
      Stream(s.received + e.bytes, s.consumed + Used(shown, e.used), Left(shown, e.used), After(e))
    else s.(state := After(e))
  }

  /** Nothing is lost, repeated or out of order, and the rest fits the buffer. */
  predicate Conserved(s: Stream, size: nat) {
    s.received == s.consumed + s.resid && |s.resid| <= size
  }

  /** A read is under way and brings no more than there is room for. */
  predicate Possible(s: Stream, e: Event, size: nat) {
    s.state == Operating && |s.resid| + |e.bytes| <= size
  }

  function Run(s: Stream, es: seq<Event>): Stream {
    if es == [] then s else Step(Run(s, es[..|es| - 1]), es[|es| - 1])
  }

  ghost predicate AllPossible(s: Stream, es: seq<Event>, size: nat) {
    forall i :: 0 <= i < |es| ==> Possible(Run(s, es[..i]), es[i], size)
  }

  /** The bytes that reads handed to the callback. */
  function Delivered(es: seq<Event>): seq<byte> {
    if es == [] then []
    else Delivered(es[..|es| - 1]) + Handed(es[|es| - 1])
  }

  function Handed(e: Event): seq<byte> {
    if Taken(e) then e.bytes else []
  }

  lemma StepConserves(s: Stream, e: Event, size: nat)
    requires Conserved(s, size) && Possible(s, e, size)
    ensures Conserved(Step(s, e), size)
    ensures Taken(e) ==> s.resid + e.bytes == (s.received + e.bytes)[|s.consumed|..]
    ensures Step(s, e).received == s.received + Handed(e) && s.consumed <= Step(s, e).consumed
  {
    var shown := s.resid + e.bytes;
    assert Used(shown, e.used) + Left(shown, e.used) == shown;
    assert s.received + e.bytes == s.consumed + shown;
  }

  /** Over any run, with any callbacks, what was used and what is left over make up what was delivered. */
  lemma {:induction false} RunConserves(s: Stream, es: seq<Event>, size: nat)
    requires Conserved(s, size) && AllPossible(s, es, size)
    ensures Conserved(Run(s, es), size)
    ensures Run(s, es).received == s.received + Delivered(es)
    ensures s.consumed <= Run(s, es).consumed
  {
    if es != [] {
      var init, last := es[..|es| - 1], es[|es| - 1];
      PossibleBefore(s, es, init, last, size);
      RunConserves(s, init, size);
      StepConserves(Run(s, init), last, size);
      Joined(s.received, Delivered(init), Handed(last));
      PrefixOfPrefix(s.consumed, Run(s, init).consumed, Run(s, es).consumed);
    }
  }

  lemma Joined(a: seq<byte>, b: seq<byte>, c: seq<byte>)
    ensures a + b + c == a + (b + c)
  {
  }

  lemma PrefixOfPrefix(a: seq<byte>, b: seq<byte>, c: seq<byte>)
    requires a <= b <= c
    ensures a <= c
  {
  }

  lemma PossibleBefore(s: Stream, es: seq<Event>, init: seq<Event>, last: Event, size: nat)
    requires AllPossible(s, es, size) && es == init + [last]
    ensures AllPossible(s, init, size) && Possible(Run(s, init), last, size)
  {
    forall i | 0 <= i < |init|
      ensures Possible(Run(s, init[..i]), init[i], size)
    {
      assert init[..i] == es[..i];
    }
    assert es[..|init|] == init;
  }

  /** Only the last read of a run can be dropped: all that was delivered before it was taken. */
  lemma DroppedLast(s: Stream, es: seq<Event>, size: nat, i: nat)
    requires AllPossible(s, es, size) && i < |es| - 1
    ensures Taken(es[i]) || es[i].bytes == []
  {
    assert Possible(Run(s, es[..i + 1]), es[i + 1], size);
    assert es[..i + 1][..i] == es[..i] && es[..i + 1][i] == es[i];
    assert Run(s, es[..i + 1]) == Step(Run(s, es[..i]), es[i]);
  }

  // ---- How far a run gets, in terms of what happened ----

  /** A taken read uses what the callback returned, or all that it was shown if that is less; a read that
      finds the halt flag, was aborted, or failed without bytes uses and takes in nothing. */
  lemma StepUses(s: Stream, e: Event)
    ensures var t, shown := Step(s, e), |s.resid| + |e.bytes|;
            if e.halted || e.error == Aborted || (e.error == Failed && e.bytes == []) then
              t.consumed == s.consumed && t.resid == s.resid && t.received == s.received
            else
              && |t.consumed| == |s.consumed| + (if e.used < shown then e.used else shown)
              && |t.consumed| + |t.resid| == |s.consumed| + shown && t.received == s.received + e.bytes
  {
  }

  /** Numbers of bytes: used so far, and left over. */
  datatype Account = Account(used: nat, left: nat)

  /** The account of a run that starts with a number of bytes left over, from the reads and the answers
      of the callbacks alone. */
  function AccountOf(left: nat, es: seq<Event>): Account {
    if es == [] then Account(0, left)
    else
      var a, e := AccountOf(left, es[..|es| - 1]), es[|es| - 1];
      if e.halted || e.error == Aborted || (e.error == Failed && e.bytes == []) then a
      else
        var shown := a.left + |e.bytes|;
        var k := if e.used < shown then e.used else shown;
        Account(a.used + k, shown - k)
  }

  /** Over any run, what is used is the sum of what the callbacks returned, each capped at what it was shown. */
  lemma {:induction false} RunUses(s: Stream, es: seq<Event>)
    ensures |Run(s, es).consumed| == |s.consumed| + AccountOf(|s.resid|, es).used
    ensures |Run(s, es).resid| == AccountOf(|s.resid|, es).left
  {
    if es != [] {
      RunUses(s, es[..|es| - 1]);
      StepUses(Run(s, es[..|es| - 1]), es[|es| - 1]);
    }
  }

  /** The bytes of all reads. */
  function AllBytes(es: seq<Event>): seq<byte> {
    if es == [] then [] else AllBytes(es[..|es| - 1]) + es[|es| - 1].bytes
  }

  /** What a read leaves the connection doing. */
  lemma StepGoesOn(s: Stream, e: Event)
    ensures Step(s, e).state ==
            if e.halted || e.error == Aborted || (e.error == Failed && !e.retry) then Halted
            else if e.haltedAfter then Waiting
            else if e.haltedLate then Halted
            else Operating
  {
  }

  /** The next read is under way exactly when this one and all before it found no halt flag and ended
      well, or failed with a callback that asks to go on. */
  lemma RunGoesOn(s: Stream, es: seq<Event>, size: nat)
    requires AllPossible(s, es, size) && s.state == Operating
    ensures Run(s, es).state == Operating <==>
              forall i :: 0 <= i < |es| ==>
                && !es[i].halted && !es[i].haltedAfter && !es[i].haltedLate
                && (es[i].error == NoError || (es[i].error == Failed && es[i].retry))
  {
    forall i | 0 <= i < |es|
      ensures i < |es| - 1 || Run(s, es).state == Operating <==>
              && !es[i].halted && !es[i].haltedAfter && !es[i].haltedLate
              && (es[i].error == NoError || (es[i].error == Failed && es[i].retry))
    {
      RunUpTo(s, es, i);
      StepGoesOn(Run(s, es[..i]), es[i]);
      if i < |es| - 1 {
        assert Possible(Run(s, es[..i + 1]), es[i + 1], size);
      } else {
        assert es[..i + 1] == es;
      }
    }
  }

  lemma RunUpTo(s: Stream, es: seq<Event>, i: nat)
    requires i < |es|
    ensures Run(s, es[..i + 1]) == Step(Run(s, es[..i]), es[i])
  {
    assert es[..i + 1][..i] == es[..i];
  }

  /** A start leads on exactly from Prestart and Waiting, when the halt flag shows at neither look. */
  lemma WhenStarted(state: State, halted: bool, haltedLate: bool)
    ensures Started(state, halted, haltedLate) == Operating <==>
              state == Operating || (state in {Prestart, Waiting} && !halted && !haltedLate)
    ensures Started(state, halted, haltedLate) == Halted <==>
              state == Halted || (state in {Prestart, Waiting} && !halted && haltedLate)
    ensures Started(state, halted, haltedLate) != state ==> state in {Prestart, Waiting}
  {
  }

  lemma {:induction false} ReadsTakeAll(s: Stream, es: seq<Event>)
    requires forall i :: 0 <= i < |es| ==> !es[i].halted && es[i].error != Aborted
    ensures Run(s, es).received == s.received + AllBytes(es)
  {
    if es != [] {
      var init, last := es[..|es| - 1], es[|es| - 1];
      ReadsTakeAll(s, init);
      StepUses(Run(s, init), last);
      Joined(s.received, AllBytes(init), last.bytes);
    }
  }

  lemma WentOn(s: Stream, es: seq<Event>, size: nat, i: nat)
    requires AllPossible(s, es, size) && i < |es| - 1
    ensures !es[i].halted && es[i].error != Aborted
  {
    RunUpTo(s, es, i);
    StepGoesOn(Run(s, es[..i]), es[i]);
    assert Possible(Run(s, es[..i + 1]), es[i + 1], size);
  }

  /** Before its last read a run takes in all bytes; of the last read it does unless that found the halt
      flag or was aborted. */
  lemma RunTakesAll(s: Stream, es: seq<Event>, size: nat)
    requires AllPossible(s, es, size) && es != []
    ensures var init, last := es[..|es| - 1], es[|es| - 1];
            Run(s, es).received == s.received + AllBytes(init) + if last.halted || last.error == Aborted then []
                                                                 else last.bytes
  {
    var init, last := es[..|es| - 1], es[|es| - 1];
    forall i | 0 <= i < |init|
      ensures !init[i].halted && init[i].error != Aborted
    {
      WentOn(s, es, size, i);
    }
    ReadsTakeAll(s, init);
    StepUses(Run(s, init), last);
  }

  // ---- In the buffer ----

  class TcpConnection {
    const data: array<byte>
    var residBufferSize: nat
    var state: State
    ghost var received: seq<byte>
    ghost var consumed: seq<byte>

    constructor (bufferSize: nat)
      ensures fresh(data) && data.Length == bufferSize && residBufferSize == 0 && state == Prestart
      ensures Conserved(Contents(), bufferSize)
    {
      data := new byte[bufferSize](_ => 0);
      residBufferSize := 0;
      state := Prestart;
      received, consumed := [], [];
    }

    ghost function Contents(): (s: Stream)
      requires residBufferSize <= data.Length
      reads this, data
    {
      Stream(received, consumed, data[..residBufferSize], state)
    }

    /** Starts a read behind the bytes left over, if none is under way and no halt is asked for. */
    method StartReceive(halted: bool, haltedLate: bool)
      modifies this`state
      ensures state == Started(old(state), halted, haltedLate)
    {
      if halted {
        return;
      }
      if state == Prestart {
        state := Waiting;
      }
      if state == Waiting {
        state := Operating;
        if haltedLate {
          state := Halted;
        }
      }
    }

    /** What a read puts behind the bytes left over. */
    method Fill(bytes: seq<byte>)
      requires residBufferSize + |bytes| <= data.Length
      modifies data
      ensures data[..residBufferSize] == old(data[..residBufferSize])
      ensures data[..residBufferSize + |bytes|] == old(data[..residBufferSize]) + bytes
    {
      ghost var was := data[..];
      var i := 0;
      while i < |bytes|
        invariant 0 <= i <= |bytes|
        invariant data[..residBufferSize] == was[..residBufferSize]
        invariant data[residBufferSize..residBufferSize + i] == bytes[..i]
      {
        data[residBufferSize + i] := bytes[i];
        i := i + 1;
      }
      assert data[..residBufferSize + i] == data[..residBufferSize] + data[residBufferSize..residBufferSize + i];
    }

    /** Copies bytes used..end to the front, from the first on: the ranges may overlap. */
    method MoveToFront(used: nat, end: nat)
      requires used <= end <= data.Length
      modifies data
      ensures data[..end - used] == old(data[used..end])
    {
      ghost var was := data[..];
      var i := 0;
      while i < end - used
        invariant 0 <= i <= end - used
        invariant data[..i] == was[used..used + i]
        invariant forall j :: i <= j < data.Length ==> data[j] == was[j]
      {
        data[i] := data[used + i];
        i := i + 1;
      }
    }

    /** Keeps what the callback did not use of the bytes up to end. */
    method Keep(used: nat, end: nat)
      requires end <= data.Length
      modifies this`residBufferSize, data
      ensures residBufferSize <= data.Length
      ensures data[..residBufferSize] == Left(old(data[..end]), used)
    {
      if used < end {
        if used > 0 {
          MoveToFront(used, end);
        }
        residBufferSize := end - used;
      } else {
        residBufferSize := 0;
      }
    }

    method Clear()
      modifies data
      ensures forall i :: 0 <= i < data.Length ==> data[i] == 0
    {
      var i := 0;
      while i < data.Length
        invariant 0 <= i <= data.Length && forall j :: 0 <= j < i ==> data[j] == 0
      {
        data[i] := 0;
        i := i + 1;
      }
    }

    /** The callback was called on the bytes up to end, among them the new ones, and used some. */
    method TakeIn(bytes: seq<byte>, used: nat, end: nat, ghost resid: seq<byte>)
      requires end <= data.Length && data[..end] == resid + bytes
      modifies this`residBufferSize, this`received, this`consumed, data
      ensures residBufferSize <= data.Length
      ensures Contents() == Stream(old(received) + bytes, old(consumed) + Used(resid + bytes, used),
                                   Left(resid + bytes, used), state)
    {
      received, consumed := received + bytes, consumed + Used(resid + bytes, used);
      Keep(used, end);
    }

    /** A read ended: e.bytes stand behind the bytes left over, and the callback, if it is called, uses
        e.used of all of them. When it uses all without an error, the buffer is cleared. */
    method HandleRead(e: Event)
      requires residBufferSize <= data.Length && Conserved(Contents(), data.Length)
      requires Possible(Contents(), e, data.Length)
      modifies this, data
      ensures residBufferSize <= data.Length && Contents() == Step(old(Contents()), e)
      ensures Conserved(Contents(), data.Length)
      ensures Taken(e) && e.error == NoError && e.used >= old(residBufferSize) + |e.bytes| ==>
                forall i :: 0 <= i < data.Length ==> data[i] == 0
    {
      StepConserves(Contents(), e, data.Length);
      ghost var resid := data[..residBufferSize];
      Fill(e.bytes);
      if e.halted {
        state := Halted;
        return;
      }
      var end := residBufferSize + |e.bytes|;
      if e.error == NoError {
        TakeIn(e.bytes, e.used, end, resid);
        if e.used >= end {
          Clear();
        }
        state := Waiting;
        StartReceive(e.haltedAfter, e.haltedLate);
      } else if e.error == Aborted {
        state := Halted;
      } else {
        if |e.bytes| > 0 {
          TakeIn(e.bytes, e.used, end, resid);
        }
        if e.retry {
          state := Waiting;
          StartReceive(e.haltedAfter, e.haltedLate);
        } else {
          state := Halted;
        }
      }
    }

    /** Reads one after the other. */
    method HandleReads(es: seq<Event>)
      requires residBufferSize <= data.Length && Conserved(Contents(), data.Length)
      requires AllPossible(Contents(), es, data.Length)
      modifies this, data
      ensures residBufferSize <= data.Length && Contents() == Run(old(Contents()), es)
      ensures Conserved(Contents(), data.Length)
      ensures old(received) + Delivered(es) == consumed + data[..residBufferSize]
    {
      ghost var s := Contents();
      var i := 0;
      while i < |es|
        invariant 0 <= i <= |es| && residBufferSize <= data.Length
        invariant Contents() == Run(s, es[..i]) && Conserved(Contents(), data.Length)
      {
        assert es[..i + 1][..i] == es[..i];
        HandleRead(es[i]);
        i := i + 1;
      }
      assert es[..i] == es;
      RunConserves(s, es, data.Length);
    }
  }
}
