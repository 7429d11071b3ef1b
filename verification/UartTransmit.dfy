/**
 The transmit half of the interrupt-driven JTAG UART driver: a ring filled by foreground code and
 drained by an interrupt routine, without locks. The writer moves in micro-steps (snapshot of the
 indices, one copied byte, publication of an index, interrupt enable); the interrupt routine runs
 between any two of them.
 */
module UartTransmit {
  import opened Bits
  import opened Ring

  /** Where the writer is in altera_avalon_jtag_uart_write. */
  datatype WriterPc = Idle | Top | Copy | Kick | AfterKick | Spin | Woken | Return

  /**
   Driver state of the transmit half, the writer's locals, and the bytes accepted from callers
   and handed to the hardware since reset.
   */
  datatype Tx = Tx(
    buf: seq<byte>, inp: nat, outp: nat, we: bool,
    pc: WriterPc, data: seq<byte>, nonblock: bool, ptr: nat, lin: nat, lout: nat, n: nat, i: nat,
    ret: int, gaveUp: bool,
    accepted: seq<byte>, sent: seq<byte>, base: nat)
  {
    function Count(): int {
      |data| - ptr
    }
  }

  datatype TxEvent =
    | Call(data: seq<byte>, nonblock: bool)
    | Writer(inactive: nat, timeout: nat)
    | TxIsr(space: nat)

  function TxInit(buf: seq<byte>): Tx {
    Tx(buf, 0, 0, false, Idle, [], false, 0, 0, 0, 0, 0, 0, false, [], [], 0)
  }

  /** Room up to the end of the buffer, keeping one slot free, as the writer computes it from its snapshot. */
  function WriterRoom(inp: nat, outp: nat, n: nat): int {
    if inp < outp then outp - 1 - inp else if outp > 0 then n - inp else n - 1 - inp
  }

  /** The next micro-step of the writer. */
  function WriterStep(s: Tx, inactive: nat, timeout: nat): Tx
    requires TxInv(s)
  {
    match s.pc
    case Idle => s
    case Top =>
      if s.Count() > 0 then
        var room := WriterRoom(s.inp, s.outp, |s.buf|);
        var t := s.(lin := s.inp, lout := s.outp);
        if room == 0 then t.(n := 0, pc := Kick)
        else t.(n := if room > s.Count() then s.Count() else room, i := 0, pc := Copy)
      else s.(pc := Kick)
    case Copy =>
      if s.i < s.n then s.(buf := s.buf[s.lin + s.i := s.data[s.ptr + s.i]], i := s.i + 1)
      else s.(ptr := s.ptr + s.n, inp := Wrap(s.lin + s.n, |s.buf|), pc := Top,
              accepted := s.accepted + s.data[s.ptr..s.ptr + s.n])
    case Kick => s.(we := true, pc := AfterKick)
    case AfterKick => s.(pc := if s.Count() > 0 && !s.nonblock then Spin else Return)
    case Spin => if s.lout == s.outp && inactive < timeout then s else s.(pc := Woken)
    case Woken => if inactive != 0 then s.(pc := Return, gaveUp := true) else s.(pc := Top)
    case Return =>
      s.(pc := Idle, ret := if s.ptr > 0 then s.ptr else if s.nonblock then -EWOULDBLOCK else -EIO)
  }

  /** The write half of the interrupt routine: send while there is room, then stop the interrupt if room is left. */
  function IsrTx(s: Tx, space: nat): Tx
    requires s.inp < |s.buf| && s.outp < |s.buf|
    decreases space
  {
    if space == 0 then s
    else if s.outp != s.inp then
      IsrTx(s.(outp := Wrap(s.outp + 1, |s.buf|), sent := s.sent + [s.buf[s.outp]]), space - 1)
    else s.(we := false)
  }

  method DrainLoop(s: Tx, space: nat) returns (r: Tx)
    requires s.inp < |s.buf| && s.outp < |s.buf|
    ensures r == IsrTx(s, space)
  {
    r := s;
    var left := space;
    while left > 0 && r.outp != r.inp
      invariant r.inp < |r.buf| && r.outp < |r.buf|
      invariant IsrTx(r, left) == IsrTx(s, space)
      decreases left
    {
      r := r.(sent := r.sent + [r.buf[r.outp]]).(outp := Wrap(r.outp + 1, |r.buf|));
      left := left - 1;
    }
    if left > 0 {
      r := r.(we := false);
    }
  }

  function Unsent(s: Tx): seq<byte>
    requires s.inp < |s.buf| && s.outp < |s.buf|
  {
    Contents(s.buf, s.inp, s.outp)
  }

  /** What one interrupt can send. */
  function Sendable(s: Tx, space: nat): (k: nat)
    requires s.inp < |s.buf| && s.outp < |s.buf|
    ensures k <= |Unsent(s)|
  {
    if space < |Unsent(s)| then space else |Unsent(s)|
  }

  lemma IsrTxStep(s: Tx, space: nat)
    requires s.inp < |s.buf| && s.outp < |s.buf|
    ensures space == 0 ==> IsrTx(s, space) == s
    ensures space > 0 && s.outp == s.inp ==> IsrTx(s, space) == s.(we := false)
    ensures space > 0 && s.outp != s.inp ==>
              IsrTx(s, space) ==
                  IsrTx(s.(outp := Wrap(s.outp + 1, |s.buf|), sent := s.sent + [s.buf[s.outp]]), space - 1)
  {
  }

  /** The interrupt sends the oldest pending bytes and disables itself only with nothing pending. */
  lemma {:induction false} IsrTxSends(s: Tx, space: nat)
    requires s.inp < |s.buf| && s.outp < |s.buf|
    ensures IsrTx(s, space).outp < |s.buf|
    ensures IsrTx(s, space) == s.(outp := IsrTx(s, space).outp, sent := s.sent + Unsent(s)[..Sendable(s, space)],
                                  we := s.we && space <= |Unsent(s)|)
    ensures Unsent(IsrTx(s, space)) == Unsent(s)[Sendable(s, space)..]
    decreases space
  {
    hide Contents, Wrap, IsrTx, Unsent;
    var u := Unsent(s);
    IsrTxStep(s, space);
    UnsentDrop(s);
    if space == 0 {
      assert s.sent + u[..0] == s.sent;
    } else if s.outp != s.inp {
      var t := s.(outp := Wrap(s.outp + 1, |s.buf|), sent := s.sent + [s.buf[s.outp]]);
      IsrTxSends(t, space - 1);
      TakeNext(s.sent, u, Sendable(s, space));
    } else {
      assert s.sent + u[..0] == s.sent;
    }
  }

  lemma UnsentDrop(s: Tx)
    requires s.inp < |s.buf| && s.outp < |s.buf|
    ensures Unsent(s) == [] <==> s.outp == s.inp
    ensures Unsent(s.(we := false)) == Unsent(s)
    ensures s.outp != s.inp ==>
              var t := s.(outp := Wrap(s.outp + 1, |s.buf|), sent := s.sent + [s.buf[s.outp]]);
              Unsent(s)[0] == s.buf[s.outp] && Unsent(t) == Unsent(s)[1..]
  {
    hide Contents, Wrap;
    if s.outp != s.inp {
      ContentsDrop(s.buf, s.inp, s.outp);
    }
  }

  lemma TakeNext(a: seq<byte>, u: seq<byte>, k: nat)
    requires 0 < k <= |u|
    ensures (a + [u[0]]) + u[1..][..k - 1] == a + u[..k]
    ensures u[1..][k - 1..] == u[k..]
  {
    assert u[..k] == [u[0]] + u[1..][..k - 1];
  }

  predicate BeforeKick(pc: WriterPc) {
    pc == Top || pc == Copy || pc == Kick
  }

  /**
   What holds in every state the driver can be in. The first clause is the safety of the ring:
   everything accepted has been sent or is still stored, in order.
   */
  predicate TxInv(s: Tx) {
    && |s.buf| >= 2 && s.inp < |s.buf| && s.outp < |s.buf|
    && s.accepted == s.sent + Unsent(s)
    && s.ptr <= |s.data| && s.base + s.ptr == |s.accepted| && s.accepted[s.base..] == s.data[..s.ptr]
    && (s.pc == Copy ==> CopyInv(s))
    && (s.pc == Return && s.ptr < |s.data| ==> s.nonblock || s.gaveUp)
    && (Unsent(s) != [] ==> s.we || BeforeKick(s.pc))
  }

  predicate CopyInv(s: Tx)
    requires s.inp < |s.buf| && s.outp < |s.buf|
  {
    && s.lin == s.inp && 0 < s.n && s.i <= s.n && s.ptr + s.n <= |s.data| && s.lin + s.n <= |s.buf|
    && |Unsent(s)| + s.n < |s.buf|
    && s.buf[s.lin..s.lin + s.i] == s.data[s.ptr..s.ptr + s.i]
  }

  function TxNext(s: Tx, e: TxEvent): Tx
    requires TxInv(s)
  {
    match e
    case Call(data, nonblock) =>
      if s.pc == Idle then
        s.(pc := Top, data := data, nonblock := nonblock, ptr := 0, lout := 0, gaveUp := false, base := |s.accepted|)
      else s
    case Writer(inactive, timeout) => WriterStep(s, inactive, timeout)
    case TxIsr(space) => IsrTx(s, space)
  }

  lemma CopyByteKeepsInv(s: Tx, inactive: nat, timeout: nat)
    requires TxInv(s) && s.pc == Copy && s.i < s.n
    ensures TxInv(WriterStep(s, inactive, timeout))
  {
    hide Contents, WriterRoom;
    var b := s.data[s.ptr + s.i];
    ContentsUnaffected(s.buf, s.inp, s.outp, s.lin + s.i, b);
    ExtendCopy(s.buf, s.lin, s.data, s.ptr, s.i);
    hide Wrap, Occupied;
  }

  lemma ExtendCopy(buf: seq<byte>, lin: nat, data: seq<byte>, ptr: nat, i: nat)
    requires lin + i < |buf| && ptr + i < |data| && buf[lin..lin + i] == data[ptr..ptr + i]
    ensures buf[lin + i := data[ptr + i]][lin..lin + i + 1] == data[ptr..ptr + i + 1]
  {
    var buf' := buf[lin + i := data[ptr + i]];
    assert buf'[lin..lin + i + 1] == buf[lin..lin + i] + [data[ptr + i]];
    assert data[ptr..ptr + i + 1] == data[ptr..ptr + i] + [data[ptr + i]];
  }

  lemma AppendChunk(accepted: seq<byte>, sent: seq<byte>, u: seq<byte>, data: seq<byte>, base: nat, ptr: nat, n: nat)
    requires accepted == sent + u && base + ptr == |accepted| && ptr + n <= |data| && accepted[base..] == data[..ptr]
    ensures accepted + data[ptr..ptr + n] == sent + (u + data[ptr..ptr + n])
    ensures (accepted + data[ptr..ptr + n])[base..] == data[..ptr + n]
  {
    assert data[..ptr + n] == data[..ptr] + data[ptr..ptr + n];
  }

  lemma PublishedContents(s: Tx)
    requires TxInv(s) && s.pc == Copy && s.i == s.n
    ensures s.lin + s.n < 2 * |s.buf| && s.ptr + s.n <= |s.data|
    ensures Contents(s.buf, Wrap(s.lin + s.n, |s.buf|), s.outp) == Unsent(s) + s.data[s.ptr..s.ptr + s.n]
  {
    assert s.buf[s.inp..s.inp + s.n] == s.data[s.ptr..s.ptr + s.n];
    ContentsPublish(s.buf, s.inp, s.outp, s.n);
  }

  lemma PublishKeepsInv(s: Tx, inactive: nat, timeout: nat)
    requires TxInv(s) && s.pc == Copy && s.i == s.n
    ensures TxInv(WriterStep(s, inactive, timeout))
  {
    hide Contents, Occupied, Wrap, WriterRoom;
    PublishedContents(s);
    hide CopyInv;
    AppendChunk(s.accepted, s.sent, Unsent(s), s.data, s.base, s.ptr, s.n);
    assert Unsent(WriterStep(s, inactive, timeout)) == Unsent(s) + s.data[s.ptr..s.ptr + s.n];
  }

  lemma SnapshotKeepsInv(s: Tx, inactive: nat, timeout: nat)
    requires TxInv(s) && s.pc == Top
    ensures TxInv(WriterStep(s, inactive, timeout))
  {
    hide Contents, Wrap;
    if s.Count() > 0 && WriterRoom(s.inp, s.outp, |s.buf|) != 0 {
      var r := WriterStep(s, inactive, timeout);
      assert Unsent(r) == Unsent(s);
      assert r.buf[r.lin..r.lin] == [] == r.data[r.ptr..r.ptr];
    }
  }

  lemma ControlKeepsInv(s: Tx, inactive: nat, timeout: nat)
    requires TxInv(s) && s.pc != Top && s.pc != Copy
    ensures TxInv(WriterStep(s, inactive, timeout))
  {
    hide Contents, Wrap, WriterRoom;
    assert Unsent(WriterStep(s, inactive, timeout)) == Unsent(s);
  }

  lemma CopyKeepsInv(s: Tx, inactive: nat, timeout: nat)
    requires TxInv(s) && s.pc == Copy
    ensures TxInv(WriterStep(s, inactive, timeout))
  {
    assert CopyInv(s);
    hide TxInv, WriterStep;
    if s.i < s.n {
      CopyByteKeepsInv(s, inactive, timeout);
    } else {
      PublishKeepsInv(s, inactive, timeout);
    }
  }

  lemma WriterKeepsInv(s: Tx, inactive: nat, timeout: nat)
    requires TxInv(s)
    ensures TxInv(WriterStep(s, inactive, timeout))
  {
    hide TxInv, WriterStep;
    if s.pc == Copy {
      CopyKeepsInv(s, inactive, timeout);
    } else if s.pc == Top {
      SnapshotKeepsInv(s, inactive, timeout);
    } else {
      ControlKeepsInv(s, inactive, timeout);
    }
  }

  lemma IsrKeepsTxInv(s: Tx, space: nat)
    requires TxInv(s)
    ensures TxInv(IsrTx(s, space))
  {
    hide Contents, IsrTx;
    IsrTxSends(s, space);
    var u, k := Unsent(s), Sendable(s, space);
    assert s.sent + u == (s.sent + u[..k]) + u[k..];
  }

  lemma CallKeepsInv(s: Tx, data: seq<byte>, nonblock: bool)
    requires TxInv(s)
    ensures TxInv(TxNext(s, Call(data, nonblock)))
  {
    hide Contents;
    assert Unsent(TxNext(s, Call(data, nonblock))) == Unsent(s);
  }

  lemma TxStepKeepsInv(s: Tx, e: TxEvent)
    requires TxInv(s)
    ensures TxInv(TxNext(s, e))
  {
    hide TxInv, IsrTx, WriterStep;
    match e
    case Call(data, nonblock) => CallKeepsInv(s, data, nonblock);
    case Writer(inactive, timeout) => WriterKeepsInv(s, inactive, timeout);
    case TxIsr(space) => IsrKeepsTxInv(s, space);
  }

  lemma TxInitInv(buf: seq<byte>)
    requires |buf| >= 2
    ensures TxInv(TxInit(buf))
  {
  }

  /** The state after any interleaving of calls, writer steps and interrupts. */
  function TxRun(buf: seq<byte>, events: seq<TxEvent>): (s: Tx)
    requires |buf| >= 2
    ensures TxInv(s)
  {
    if events == [] then TxInitInv(buf); TxInit(buf)
    else
      var front := TxRun(buf, events[..|events| - 1]);
      TxStepKeepsInv(front, events[|events| - 1]);
      TxNext(front, events[|events| - 1])
  }

  /** Nothing is lost, duplicated or reordered on the way to the hardware, whatever the interleaving. */
  lemma SentIsPrefixOfAccepted(buf: seq<byte>, events: seq<TxEvent>)
    requires |buf| >= 2
    ensures var s := TxRun(buf, events);
            s.sent <= s.accepted && |s.accepted| - |s.sent| < |s.buf| && s.accepted == s.sent + Unsent(s)
  {
    hide Contents;
    var s := TxRun(buf, events);
    assert s.sent == s.accepted[..|s.sent|];
  }

  /**
   When a call returns, a positive result r means exactly the first r bytes were accepted and an
   error means none were; a blocking call accepts fewer than asked only if its writer gave up.
   */
  lemma WriteResult(buf: seq<byte>, events: seq<TxEvent>, inactive: nat, timeout: nat)
    requires |buf| >= 2 && TxRun(buf, events).pc == Return
    ensures var s := TxRun(buf, events);
            var r := TxNext(s, Writer(inactive, timeout)).ret;
            && s.base <= |s.accepted|
            && (r > 0 ==> r <= |s.data| && s.accepted[s.base..] == s.data[..r])
            && (r <= 0 ==> s.accepted[s.base..] == [] && r == if s.nonblock then -EWOULDBLOCK else -EIO)
            && (|s.accepted| - s.base < |s.data| ==> s.nonblock || s.gaveUp)
  {
    hide Contents;
  }

  // ----- From a call to its return -----

  predicate NoCalls(events: seq<TxEvent>) {
    forall e :: e in events ==> !e.Call?
  }

  /** The state some events after a call. */
  function InCall(buf: seq<byte>, before: seq<TxEvent>, data: seq<byte>, nonblock: bool, during: seq<TxEvent>): (s: Tx)
    requires |buf| >= 2
    ensures TxInv(s)
  {
    TxRun(buf, before + [Call(data, nonblock)] + during)
  }

  lemma InCallNext(buf: seq<byte>, before: seq<TxEvent>, data: seq<byte>, nonblock: bool, during: seq<TxEvent>)
    requires |buf| >= 2
    ensures InCall(buf, before, data, nonblock, []) == TxNext(TxRun(buf, before), Call(data, nonblock))
    ensures during != [] ==>
              var n := |during| - 1;
              InCall(buf, before, data, nonblock, during) ==
                  TxNext(InCall(buf, before, data, nonblock, during[..n]), during[n])
  {
    hide TxNext, TxInv;
    var all := before + [Call(data, nonblock)];
    assert all + [] == all && all[..|all| - 1] == before;
    if during != [] {
      assert (all + during)[..|all + during| - 1] == all + during[..|during| - 1];
    }
  }

  /** The host was seen to be inactive by one of the writer's steps. */
  predicate SeenInactive(during: seq<TxEvent>) {
    exists e :: e in during && e.Writer? && e.inactive != 0
  }

  /** What one step keeps of a call, and what it adds to the bytes accepted. */
  lemma CallStep(s: Tx, e: TxEvent)
    requires TxInv(s) && !e.Call?
    ensures var t := TxNext(s, e);
            && t.data == s.data && t.nonblock == s.nonblock && t.base == s.base && s.accepted <= t.accepted
            && (t.gaveUp ==> s.gaveUp || (e.Writer? && e.inactive != 0))
  {
    hide IsrTx, WriterStep, TxInv, Contents;
    match e
    case Writer(inactive, timeout) => WriterCallStep(s, inactive, timeout);
    case TxIsr(space) => IsrTxFrame(s, space);
  }

  lemma WriterCallStep(s: Tx, inactive: nat, timeout: nat)
    requires TxInv(s)
    ensures var t := WriterStep(s, inactive, timeout);
            && t.data == s.data && t.nonblock == s.nonblock && t.base == s.base && s.accepted <= t.accepted
            && (t.gaveUp ==> s.gaveUp || inactive != 0)
  {
    hide TxInv, WriterStep;
    WriterKeepsCall(s, inactive, timeout);
    WriterOnlyAccepts(s, inactive, timeout);
  }

  lemma WriterKeepsCall(s: Tx, inactive: nat, timeout: nat)
    requires TxInv(s)
    ensures var t := WriterStep(s, inactive, timeout);
            && t.data == s.data && t.nonblock == s.nonblock && t.base == s.base
            && (t.gaveUp ==> s.gaveUp || inactive != 0)
  {
    hide WriterRoom, Contents, Wrap;
  }

  lemma WriterOnlyAccepts(s: Tx, inactive: nat, timeout: nat)
    requires TxInv(s)
    ensures s.accepted <= WriterStep(s, inactive, timeout).accepted
  {
    hide WriterRoom, Contents, Wrap;
  }

  lemma IsrTxFrame(s: Tx, space: nat)
    requires TxInv(s)
    ensures var t := IsrTx(s, space);
            && t == s.(outp := t.outp, sent := t.sent, we := t.we) && t.outp < |t.buf|
            && Unsent(t) == Unsent(s)[Sendable(s, space)..]
  {
    hide Contents, IsrTx;
    IsrTxSends(s, space);
  }

  /** Until its return, and after it, a call works on its own arguments, and it gives up only on an inactive host. */
  lemma {:induction false} DuringCall(buf: seq<byte>, before: seq<TxEvent>, data: seq<byte>, nonblock: bool,
                                      during: seq<TxEvent>)
    requires |buf| >= 2 && TxRun(buf, before).pc == Idle && NoCalls(during)
    ensures var s := InCall(buf, before, data, nonblock, during);
            && s.data == data && s.nonblock == nonblock && s.ptr <= |data|
            && s.accepted == TxRun(buf, before).accepted + data[..s.ptr]
            && (s.gaveUp ==> SeenInactive(during))
  {
    DuringCallFields(buf, before, data, nonblock, during);
    hide TxRun, InCall;
    var old', s := TxRun(buf, before).accepted, InCall(buf, before, data, nonblock, during);
    assert s.accepted == s.accepted[..s.base] + s.accepted[s.base..];
    assert s.accepted[..s.base] == old';
  }

  lemma {:induction false} DuringCallFields(buf: seq<byte>, before: seq<TxEvent>, data: seq<byte>, nonblock: bool,
                                            during: seq<TxEvent>)
    requires |buf| >= 2 && TxRun(buf, before).pc == Idle && NoCalls(during)
    ensures var s := InCall(buf, before, data, nonblock, during);
            && s.data == data && s.nonblock == nonblock && s.base == |TxRun(buf, before).accepted|
            && TxRun(buf, before).accepted <= s.accepted
            && (s.gaveUp ==> SeenInactive(during))
    decreases |during|
  {
    InCallNext(buf, before, data, nonblock, during);
    hide TxRun, InCall, TxInv;
    if during != [] {
      var n := |during| - 1;
      DuringCallFields(buf, before, data, nonblock, during[..n]);
      CallStep(InCall(buf, before, data, nonblock, during[..n]), during[n]);
    }
  }

  /** What a call returns, in terms of its own arguments. */
  lemma CallReturns(buf: seq<byte>, before: seq<TxEvent>, data: seq<byte>, nonblock: bool, during: seq<TxEvent>,
                    inactive: nat, timeout: nat)
    requires |buf| >= 2 && TxRun(buf, before).pc == Idle && NoCalls(during)
    requires InCall(buf, before, data, nonblock, during).pc == Return
    ensures var s := InCall(buf, before, data, nonblock, during);
            var r := TxNext(s, Writer(inactive, timeout)).ret;
            && (r > 0 ==> r <= |data| && s.accepted == TxRun(buf, before).accepted + data[..r])
            && (r <= 0 ==> s.accepted == TxRun(buf, before).accepted && r == if nonblock then -EWOULDBLOCK else -EIO)
  {
    DuringCall(buf, before, data, nonblock, during);
    hide TxRun, InCall, SeenInactive, Contents;
    assert data[..0] == [];
  }

  /** A blocking call whose writer never sees an inactive host returns only when all of its bytes are accepted. */
  lemma BlockingWriteCompletes(buf: seq<byte>, before: seq<TxEvent>, data: seq<byte>, during: seq<TxEvent>,
                               inactive: nat, timeout: nat)
    requires |buf| >= 2 && TxRun(buf, before).pc == Idle && NoCalls(during) && !SeenInactive(during)
    ensures var s := InCall(buf, before, data, false, during);
            s.pc == Return ==>
              && s.accepted == TxRun(buf, before).accepted + data
              && TxNext(s, Writer(inactive, timeout)).ret == if data == [] then -EIO else |data|
  {
    DuringCall(buf, before, data, false, during);
    hide TxRun, InCall, SeenInactive;
    assert data[..|data|] == data;
  }

  /** A call returns with fewer bytes accepted than asked only if the ring was full at some moment during it. */
  lemma {:induction false} ShortOnlyWhenFull(buf: seq<byte>, before: seq<TxEvent>, data: seq<byte>, nonblock: bool,
                                             during: seq<TxEvent>)
    requires |buf| >= 2 && TxRun(buf, before).pc == Idle && NoCalls(during)
    ensures var s := InCall(buf, before, data, nonblock, during);
            s.pc == Return && s.accepted < TxRun(buf, before).accepted + data ==>
              FullSeen(buf, before, data, nonblock, during)
  {
    DuringCall(buf, before, data, nonblock, during);
    FullOrDone(buf, before, data, nonblock, during);
  }

  predicate FullAfter(buf: seq<byte>, before: seq<TxEvent>, data: seq<byte>, nonblock: bool, during: seq<TxEvent>)
    requires |buf| >= 2
  {
    var s := InCall(buf, before, data, nonblock, during);
    |Unsent(s)| == |s.buf| - 1
  }

  predicate FullSeen(buf: seq<byte>, before: seq<TxEvent>, data: seq<byte>, nonblock: bool, during: seq<TxEvent>)
    requires |buf| >= 2
  {
    exists j :: 0 <= j <= |during| && FullAfter(buf, before, data, nonblock, during[..j])
  }

  lemma FullSeenNext(buf: seq<byte>, before: seq<TxEvent>, data: seq<byte>, nonblock: bool, during: seq<TxEvent>)
    requires |buf| >= 2 && during != []
    requires var front := during[..|during| - 1];
             FullSeen(buf, before, data, nonblock, front) || FullAfter(buf, before, data, nonblock, front)
    ensures FullSeen(buf, before, data, nonblock, during)
  {
    hide FullAfter;
    var n := |during| - 1;
    if FullSeen(buf, before, data, nonblock, during[..n]) {
      var j :| 0 <= j <= n && FullAfter(buf, before, data, nonblock, during[..n][..j]);
      assert during[..n][..j] == during[..j];
    }
  }

  /** Past its copying the writer is done or has seen the ring full. */
  predicate PastCopying(pc: WriterPc) {
    pc != Top && pc != Copy && pc != Idle
  }

  lemma StopsWhenFull(s: Tx, e: TxEvent)
    requires TxInv(s) && !e.Call?
    requires |Unsent(s)| < |s.buf| - 1 && (PastCopying(s.pc) ==> s.ptr == |s.data|)
    ensures var t := TxNext(s, e); PastCopying(t.pc) ==> t.ptr == |t.data|
  {
    hide IsrTx;
    if e.TxIsr? {
      IsrTxFrame(s, e.space);
    }
  }

  lemma {:induction false} FullOrDone(buf: seq<byte>, before: seq<TxEvent>, data: seq<byte>, nonblock: bool,
                                      during: seq<TxEvent>)
    requires |buf| >= 2 && TxRun(buf, before).pc == Idle && NoCalls(during)
    ensures var s := InCall(buf, before, data, nonblock, during);
            || FullSeen(buf, before, data, nonblock, during)
            || (PastCopying(s.pc) ==> s.ptr == |s.data|)
    decreases |during|
  {
    InCallNext(buf, before, data, nonblock, during);
    hide TxRun, InCall, TxInv, FullAfter, FullSeen, Contents, WriterStep, IsrTx;
    if during != [] {
      var n := |during| - 1;
      FullOrDone(buf, before, data, nonblock, during[..n]);
      if FullSeen(buf, before, data, nonblock, during[..n]) || FullAfter(buf, before, data, nonblock, during[..n]) {
        FullSeenNext(buf, before, data, nonblock, during);
      } else {
        NotFull(buf, before, data, nonblock, during[..n]);
        StopsWhenFull(InCall(buf, before, data, nonblock, during[..n]), during[n]);
      }
    }
  }

  lemma NotFull(buf: seq<byte>, before: seq<TxEvent>, data: seq<byte>, nonblock: bool, during: seq<TxEvent>)
    requires |buf| >= 2 && !FullAfter(buf, before, data, nonblock, during)
    ensures var s := InCall(buf, before, data, nonblock, during); |Unsent(s)| < |s.buf| - 1
  {
    hide InCall, TxInv, Contents;
  }

  // ----- Waiting and returning -----

  /** A writer that waits has bytes left and found the ring full when it last looked. */
  predicate WaitInv(s: Tx)
    requires TxInv(s)
  {
    && (s.pc == Spin || s.pc == Woken ==> s.ptr < |s.data| && !s.nonblock)
    && (PastCopying(s.pc) && s.pc != Return && s.ptr < |s.data| ==>
          s.lout < |s.buf| && Occupied(s.inp, s.lout, |s.buf|) == |s.buf| - 1)
  }

  lemma StepKeepsWait(s: Tx, e: TxEvent)
    requires TxInv(s) && WaitInv(s) && TxInv(TxNext(s, e))
    ensures WaitInv(TxNext(s, e))
  {
    hide IsrTx, WriterStep, TxInv, WaitInv;
    match e
    case Writer(inactive, timeout) =>
      if s.pc == Copy {
        CopyKeepsWait(s, inactive, timeout);
      } else if s.pc == Top {
        TopKeepsWait(s, inactive, timeout);
      } else {
        ControlKeepsWait(s, inactive, timeout);
      }
    case TxIsr(space) => IsrKeepsWait(s, space);
    case Call(data, nonblock) => CallKeepsWait(s, data, nonblock);
  }

  lemma IsrKeepsWait(s: Tx, space: nat)
    requires TxInv(s) && WaitInv(s)
    ensures TxInv(IsrTx(s, space)) && WaitInv(IsrTx(s, space))
  {
    hide IsrTx, TxInv, Occupied;
    IsrKeepsTxInv(s, space);
    IsrTxFrame(s, space);
  }

  lemma CallKeepsWait(s: Tx, data: seq<byte>, nonblock: bool)
    requires TxInv(s) && WaitInv(s)
    ensures TxInv(TxNext(s, Call(data, nonblock))) && WaitInv(TxNext(s, Call(data, nonblock)))
  {
    hide TxInv, Occupied;
    CallKeepsInv(s, data, nonblock);
  }

  lemma CopyKeepsWait(s: Tx, inactive: nat, timeout: nat)
    requires TxInv(s) && WaitInv(s) && TxInv(WriterStep(s, inactive, timeout)) && s.pc == Copy
    ensures WaitInv(WriterStep(s, inactive, timeout))
  {
    hide Contents, Wrap, Occupied;
  }

  /** No room means a full ring. */
  lemma TopKeepsWait(s: Tx, inactive: nat, timeout: nat)
    requires TxInv(s) && WaitInv(s) && TxInv(WriterStep(s, inactive, timeout)) && s.pc == Top
    ensures WaitInv(WriterStep(s, inactive, timeout))
  {
    hide Contents, Wrap;
    assert s.outp < |s.buf|;
    hide TxInv;
  }

  lemma ControlKeepsWait(s: Tx, inactive: nat, timeout: nat)
    requires TxInv(s) && WaitInv(s) && TxInv(WriterStep(s, inactive, timeout)) && s.pc != Copy && s.pc != Top
    ensures WaitInv(WriterStep(s, inactive, timeout))
  {
    hide Contents, Wrap, Occupied;
  }

  lemma {:induction false} RunWaits(buf: seq<byte>, events: seq<TxEvent>)
    requires |buf| >= 2
    ensures WaitInv(TxRun(buf, events))
  {
    hide TxInv, TxNext;
    if events == [] {
      TxInitInv(buf);
      assert WaitInv(TxInit(buf));
    } else {
      var n := |events| - 1;
      RunWaits(buf, events[..n]);
      assert TxInv(TxRun(buf, events));
      StepKeepsWait(TxRun(buf, events[..n]), events[n]);
    }
  }

  /** A waiting writer goes on waiting exactly as long as the ring is full and the host has not timed out. */
  lemma WaitsWhileFull(buf: seq<byte>, events: seq<TxEvent>, inactive: nat, timeout: nat)
    requires |buf| >= 2 && TxRun(buf, events).pc == Spin
    ensures var s := TxRun(buf, events);
            TxNext(s, Writer(inactive, timeout)).pc == Spin <==> |Unsent(s)| == |s.buf| - 1 && inactive < timeout
  {
    hide TxRun, Contents, Wrap;
    RunWaits(buf, events);
    assert TxInv(TxRun(buf, events));
  }

  /** How many writer steps a call can still take if it does not wait for room. */
  function ReturnRank(s: Tx): int {
    match s.pc
    case Top => 3 * s.Count() + 6
    case Copy => 3 * s.Count() + 5 - s.i
    case Kick => 4
    case AfterKick => 3
    case Spin => 2
    case Woken => 1
    case _ => 0
  }

  function WriterSteps(events: seq<TxEvent>): nat {
    if events == [] then 0
    else WriterSteps(events[..|events| - 1]) + if events[|events| - 1].Writer? then 1 else 0
  }

  predicate Returned(s: Tx) {
    s.pc == Return || s.pc == Idle
  }

  /** Every writer's step sees a host that is inactive and has timed out. */
  predicate HostDead(events: seq<TxEvent>) {
    forall e :: e in events ==> e.Writer? ==> e.inactive > 0 && e.inactive >= e.timeout
  }

  lemma StepNearsReturn(s: Tx, e: TxEvent)
    requires TxInv(s) && WaitInv(s) && !e.Call? && (s.nonblock || HostDead([e]))
    ensures var t := TxNext(s, e);
            && (Returned(s) ==> Returned(t))
            && (!Returned(s) ==> ReturnRank(s) > 0)
            && (!Returned(s) && e.Writer? ==> ReturnRank(t) < ReturnRank(s))
            && (!Returned(s) && !e.Writer? ==> ReturnRank(t) == ReturnRank(s))
  {
    hide IsrTx, Contents, Wrap;
    assert e in [e];
    if e.TxIsr? {
      IsrTxFrame(s, e.space);
    }
  }

  /** A call that does not block, or whose host is dead, returns within a number of steps of its writer. */
  lemma {:induction false} CallEnds(buf: seq<byte>, before: seq<TxEvent>, data: seq<byte>, nonblock: bool,
                                    during: seq<TxEvent>)
    requires |buf| >= 2 && TxRun(buf, before).pc == Idle && NoCalls(during) && (nonblock || HostDead(during))
    ensures var s := InCall(buf, before, data, nonblock, during);
            Returned(s) || 0 < ReturnRank(s) <= 3 * |data| + 6 - WriterSteps(during)
    ensures WriterSteps(during) >= 3 * |data| + 6 ==> Returned(InCall(buf, before, data, nonblock, during))
    decreases |during|
  {
    InCallNext(buf, before, data, nonblock, during);
    RunWaits(buf, before + [Call(data, nonblock)] + during);
    DuringCallFields(buf, before, data, nonblock, during);
    hide TxRun, InCall, TxInv, WaitInv, TxNext, HostDead, ReturnRank, Returned;
    if during == [] {
      CallRank(TxRun(buf, before), data, nonblock);
    } else {
      var n := |during| - 1;
      var s := InCall(buf, before, data, nonblock, during[..n]);
      DuringCallFields(buf, before, data, nonblock, during[..n]);
      RunWaits(buf, before + [Call(data, nonblock)] + during[..n]);
      DeadParts(during);
      CallEnds(buf, before, data, nonblock, during[..n]);
      StepNearsReturn(s, during[n]);
      RankPositive(InCall(buf, before, data, nonblock, during));
    }
  }

  lemma CallRank(s: Tx, data: seq<byte>, nonblock: bool)
    requires TxInv(s) && s.pc == Idle
    ensures 0 < ReturnRank(TxNext(s, Call(data, nonblock))) <= 3 * |data| + 6
  {
    hide TxInv;
  }

  lemma DeadParts(during: seq<TxEvent>)
    requires during != []
    ensures HostDead(during) ==> HostDead(during[..|during| - 1]) && HostDead([during[|during| - 1]])
  {
  }

  lemma RankPositive(s: Tx)
    requires TxInv(s)
    ensures Returned(s) || ReturnRank(s) > 0
  {
    hide Contents;
  }

  /** A stopped transmit interrupt never strands data: some writer has yet to enable it. */
  lemma NoLostTransmitWakeup(buf: seq<byte>, events: seq<TxEvent>)
    requires |buf| >= 2
    ensures var s := TxRun(buf, events);
            && (Unsent(s) != [] ==> s.we || BeforeKick(s.pc))
            && (s.pc == Spin && Unsent(s) != [] ==> s.we)
  {
    hide Contents;
    assert TxInv(TxRun(buf, events));
  }

  /** How many writer steps can precede the interrupt enable. */
  function KickRank(s: Tx): int {
    match s.pc
    case Top => 3 * s.Count() + 2
    case Copy => 3 * s.Count() + 1 - s.i
    case _ => 0
  }

  /** A writer that has yet to enable the interrupt gets closer with each of its steps, and does enable it. */
  lemma KickComes(s: Tx, inactive: nat, timeout: nat)
    requires TxInv(s) && BeforeKick(s.pc)
    ensures KickRank(s) >= 0
    ensures var r := WriterStep(s, inactive, timeout);
            if s.pc == Kick then r.we else BeforeKick(r.pc) && KickRank(r) < KickRank(s)
  {
    hide Contents, Wrap;
  }

  /** An interrupt neither moves the writer nor makes it wait longer. */
  lemma IsrKeepsRank(s: Tx, space: nat)
    requires TxInv(s)
    ensures IsrTx(s, space).pc == s.pc && KickRank(IsrTx(s, space)) == KickRank(s)
  {
    hide IsrTx;
    IsrTxSends(s, space);
  }
}
