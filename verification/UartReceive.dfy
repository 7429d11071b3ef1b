/**
 The receive half of the interrupt-driven JTAG UART driver: a ring filled by the interrupt routine
 from the hardware FIFO and emptied by foreground code in micro-steps.
 */
module UartReceive {
  import opened Bits
  import opened Ring

  /** Where the reader is in altera_avalon_jtag_uart_read. */
  datatype ReaderPc = Idle | Outer | Snap | Copy | After | Spin | Woken | Exit | Return

  /**
   Driver state of the receive half, the reader's locals and the caller's buffer, and the bytes
   popped from the hardware and delivered to callers since reset.
   */
  datatype Rx = Rx(
    buf: seq<byte>, inp: nat, outp: nat, re: bool,
    pc: ReaderPc, user: seq<byte>, space: nat, nonblock: bool, ptr: nat, lin: nat, lout: nat, n: nat, i: nat,
    ret: int,
    popped: seq<byte>, delivered: seq<byte>, base: nat)

  /** One read of the data register: RVALID, the byte, and the RAVAIL count left behind it. */
  datatype FifoWord = FifoWord(valid: bool, data: byte, avail: nat)

  /** The hardware reports nothing available when it has nothing to return. */
  predicate Honest(words: seq<FifoWord>) {
    forall k :: 0 <= k < |words| && !words[k].valid ==> words[k].avail == 0
  }

  datatype RxEvent =
    | Call(space: nat, nonblock: bool)
    | Reader(inactive: nat, timeout: nat)
    | RxIsr(words: seq<FifoWord>)

  function RxInit(buf: seq<byte>): Rx {
    Rx(buf, 0, 0, true, Idle, [], 0, false, 0, 0, 0, 0, 0, 0, [], [], 0)
  }

  function Unread(s: Rx): seq<byte>
    requires s.inp < |s.buf| && s.outp < |s.buf|
  {
    Contents(s.buf, s.inp, s.outp)
  }

  predicate Full(s: Rx)
    requires s.inp < |s.buf|
  {
    Wrap(s.inp + 1, |s.buf|) == s.outp
  }

  /** The next micro-step of the reader. */
  function ReaderStep(s: Rx, inactive: nat, timeout: nat): Rx
    requires RxInv(s)
  {
    match s.pc
    case Idle => s
    case Outer => s.(pc := if s.space > 0 then Snap else Exit)
    case Snap =>
      var room := if s.inp >= s.outp then s.inp - s.outp else |s.buf| - s.outp;
      var t := s.(lin := s.inp, lout := s.outp);
      if room == 0 then t.(n := 0, pc := After)
      else t.(n := if room > s.space then s.space else room, i := 0, pc := Copy)
    case Copy =>
      if s.i < s.n then s.(user := s.user + [s.buf[s.lout + s.i]], i := s.i + 1)
      else s.(ptr := s.ptr + s.n, space := s.space - s.n, outp := Wrap(s.lout + s.n, |s.buf|),
              delivered := s.delivered + s.user[s.ptr..], pc := if s.space > s.n then Snap else After)
    case After => s.(pc := if s.ptr > 0 || s.nonblock then Exit else Spin)
    case Spin => if s.lin == s.inp && inactive < timeout then s else s.(pc := Woken)
    case Woken => s.(pc := if s.lin == s.inp then Exit else Outer)
    case Exit => s.(re := s.re || s.ptr > 0, pc := Return)
    case Return =>
      s.(pc := Idle, ret := if s.ptr > 0 then s.ptr else if s.nonblock then -EWOULDBLOCK else -EIO)
  }

  /** Turn the interrupt off when the last register read left data behind. */
  function Finish(s: Rx, avail: nat): Rx {
    if avail > 0 then s.(re := false) else s
  }

  /**
   The read half of the interrupt routine: pop until the ring is full or the FIFO is empty. It starts
   from the assumption that something is available; a script that runs out words as an empty FIFO.
   */
  function IsrRx(s: Rx, words: seq<FifoWord>, avail: nat): Rx
    requires s.inp < |s.buf| && s.outp < |s.buf|
    decreases |words|
  {
    if Full(s) then Finish(s, avail)
    else if words == [] then s
    else if !words[0].valid then Finish(s, words[0].avail)
    else IsrRx(Store(s, words[0].data), words[1..], words[0].avail)
  }

  function Store(s: Rx, b: byte): Rx
    requires s.inp < |s.buf| && s.outp < |s.buf|
  {
    s.(buf := s.buf[s.inp := b], inp := Wrap(s.inp + 1, |s.buf|), popped := s.popped + [b])
  }

  method FillLoop(s: Rx, words: seq<FifoWord>) returns (r: Rx)
    requires s.inp < |s.buf| && s.outp < |s.buf|
    ensures r == IsrRx(s, words, 1)
    ensures r.popped == s.popped + Data(words[..Taken(s, words)])
    ensures r.re == (s.re && LeftBehind(s, words, 1) == 0)
  {
    hide Data, Taken, LeftBehind;
    r := s;
    var k, avail := 0, 1;
    while true
      invariant k <= |words| && r.inp < |r.buf| && r.outp < |r.buf|
      invariant IsrRx(r, words[k..], avail) == IsrRx(s, words, 1)
      decreases |words| - k
    {
      if Full(r) {
        break;
      }
      if k == |words| {
        avail := 0;
        break;
      }
      var word := words[k];
      avail := word.avail;
      if !word.valid {
        break;
      }
      assert words[k..][0] == word && words[k..][1..] == words[k + 1..];
      r := Store(r, word.data);
      k := k + 1;
    }
    r := Finish(r, avail);
    IsrTakes(s, words, 1);
  }

  predicate BeforeEnable(s: Rx) {
    s.ptr > 0 && (s.pc == Snap || s.pc == Copy || s.pc == After || s.pc == Exit)
  }

  /**
   What holds in every state the driver can be in. The first clause is the safety of the ring:
   everything popped has been delivered or is still stored, in order.
   */
  predicate RxInv(s: Rx) {
    && |s.buf| >= 2 && s.inp < |s.buf| && s.outp < |s.buf|
    && s.popped == s.delivered + Unread(s)
    && s.base + s.ptr == |s.delivered| && s.ptr <= |s.user| && s.delivered[s.base..] == s.user[..s.ptr]
    && (s.pc == Copy ==> CopyInv(s))
    && (s.pc != Copy ==> |s.user| == s.ptr)
    && (s.pc == Snap ==> s.space > 0)
    && (s.pc == Outer || s.pc == Spin || s.pc == Woken ==> s.ptr == 0)
    && (!s.re ==> Full(s) || BeforeEnable(s))
  }

  predicate CopyInv(s: Rx)
    requires s.inp < |s.buf| && s.outp < |s.buf| && s.ptr <= |s.user|
  {
    && s.lout == s.outp && 0 < s.n <= s.space && s.i <= s.n && s.n <= |Unread(s)| && s.lout + s.n <= |s.buf|
    && s.user[s.ptr..] == Unread(s)[..s.i]
  }

  function RxNext(s: Rx, e: RxEvent): Rx
    requires RxInv(s)
  {
    match e
    case Call(space, nonblock) =>
      if s.pc == Idle then
        s.(pc := Outer, user := [], space := space, nonblock := nonblock, ptr := 0, base := |s.delivered|)
      else s
    case Reader(inactive, timeout) => ReaderStep(s, inactive, timeout)
    case RxIsr(words) => IsrRx(s, words, 1)
  }

  lemma FullIff(s: Rx)
    requires s.inp < |s.buf| && s.outp < |s.buf|
    ensures Full(s) <==> |Unread(s)| == |s.buf| - 1
  {
  }

  lemma UnreadAt(s: Rx, k: nat)
    requires s.inp < |s.buf| && s.outp < |s.buf| && k < |Unread(s)| && s.outp + k < |s.buf|
    ensures Unread(s)[k] == s.buf[s.outp + k]
  {
  }

  // ----- The interrupt -----

  lemma StoreAppends(s: Rx, b: byte)
    requires s.inp < |s.buf| && s.outp < |s.buf| && !Full(s)
    ensures Store(s, b).inp < |s.buf| == |Store(s, b).buf|
    ensures Unread(Store(s, b)) == Unread(s) + [b]
  {
    ContentsAppend(s.buf, s.inp, s.outp, b);
  }

  /** Storing a byte disturbs nothing else, not even a copy in progress. */
  lemma StoreKeepsInv(s: Rx, b: byte)
    requires RxInv(s) && !Full(s)
    ensures RxInv(Store(s, b))
  {
    StoreAppends(s, b);
    var u, r := Unread(s), Store(s, b);
    assert s.pc == Copy ==> CopyInv(r) by {
      if s.pc == Copy {
        assert (u + [b])[..s.i] == u[..s.i];
      }
    }
    assert (s.delivered + u) + [b] == s.delivered + (u + [b]);
    hide Contents, Store, Full, CopyInv;
    assert s.re || BeforeEnable(s);
  }

  lemma FinishKeepsInv(s: Rx, avail: nat)
    requires RxInv(s) && (avail > 0 ==> Full(s))
    ensures RxInv(Finish(s, avail))
  {
    hide Contents, Wrap;
    assert Unread(Finish(s, avail)) == Unread(s);
  }

  lemma {:induction false} IsrKeepsInv(s: Rx, words: seq<FifoWord>, avail: nat)
    requires RxInv(s) && Honest(words)
    ensures RxInv(IsrRx(s, words, avail))
    decreases |words|
  {
    assert s.inp < |s.buf| && s.outp < |s.buf|;
    hide RxInv, Full, Store;
    if Full(s) {
      FinishKeepsInv(s, avail);
    } else if words != [] {
      if words[0].valid {
        StoreKeepsInv(s, words[0].data);
        IsrKeepsInv(Store(s, words[0].data), words[1..], words[0].avail);
      } else {
        FinishKeepsInv(s, words[0].avail);
      }
    }
  }

  // ----- The reader -----

  lemma CopyByteKeepsInv(s: Rx, inactive: nat, timeout: nat)
    requires RxInv(s) && s.pc == Copy && s.i < s.n
    ensures RxInv(ReaderStep(s, inactive, timeout))
  {
    var u, b := Unread(s), s.buf[s.lout + s.i];
    UnreadAt(s, s.i);
    assert u[..s.i + 1] == u[..s.i] + [b];
    assert (s.user + [b])[s.ptr..] == s.user[s.ptr..] + [b];
    assert (s.user + [b])[..s.ptr] == s.user[..s.ptr];
    hide Contents, Wrap, Occupied;
    assert Unread(ReaderStep(s, inactive, timeout)) == u;
  }

  lemma DeliverChunk(popped: seq<byte>, delivered: seq<byte>, u: seq<byte>, user: seq<byte>, base: nat, ptr: nat,
                     n: nat)
    requires popped == delivered + u && n <= |u| && ptr <= |user| && user[ptr..] == u[..n]
    requires base + ptr == |delivered| && delivered[base..] == user[..ptr]
    ensures popped == (delivered + user[ptr..]) + u[n..] && |user| == ptr + n
    ensures (delivered + user[ptr..])[base..] == user[..ptr + n]
  {
    assert u == u[..n] + u[n..];
    assert user == user[..ptr] + user[ptr..];
  }

  lemma PublishKeepsInv(s: Rx, inactive: nat, timeout: nat)
    requires RxInv(s) && s.pc == Copy && s.i == s.n
    ensures RxInv(ReaderStep(s, inactive, timeout))
  {
    hide Contents, Occupied, Wrap, Full;
    assert CopyInv(s);
    ConsumedContents(s);
    DeliverChunk(s.popped, s.delivered, Unread(s), s.user, s.base, s.ptr, s.n);
    hide CopyInv;
    assert Unread(ReaderStep(s, inactive, timeout)) == Unread(s)[s.n..];
  }

  lemma ConsumedContents(s: Rx)
    requires RxInv(s) && s.pc == Copy && s.i == s.n
    ensures s.lout + s.n < 2 * |s.buf| && s.n <= |Unread(s)|
    ensures Contents(s.buf, s.inp, Wrap(s.lout + s.n, |s.buf|)) == Unread(s)[s.n..]
  {
    ContentsConsume(s.buf, s.inp, s.outp, s.n);
  }

  lemma SnapshotKeepsInv(s: Rx, inactive: nat, timeout: nat)
    requires RxInv(s) && s.pc == Snap
    ensures RxInv(ReaderStep(s, inactive, timeout))
  {
    hide Contents, Wrap;
    assert Unread(ReaderStep(s, inactive, timeout)) == Unread(s);
    assert Unread(s)[..0] == s.user[s.ptr..];
  }

  lemma ControlKeepsInv(s: Rx, inactive: nat, timeout: nat)
    requires RxInv(s) && s.pc != Snap && s.pc != Copy
    ensures RxInv(ReaderStep(s, inactive, timeout))
  {
    hide Contents, Wrap;
    assert Unread(ReaderStep(s, inactive, timeout)) == Unread(s);
  }

  lemma CopyKeepsInv(s: Rx, inactive: nat, timeout: nat)
    requires RxInv(s) && s.pc == Copy
    ensures RxInv(ReaderStep(s, inactive, timeout))
  {
    assert CopyInv(s);
    hide RxInv, ReaderStep;
    if s.i < s.n {
      CopyByteKeepsInv(s, inactive, timeout);
    } else {
      PublishKeepsInv(s, inactive, timeout);
    }
  }

  lemma ReaderKeepsInv(s: Rx, inactive: nat, timeout: nat)
    requires RxInv(s)
    ensures RxInv(ReaderStep(s, inactive, timeout))
  {
    hide RxInv, ReaderStep;
    if s.pc == Copy {
      CopyKeepsInv(s, inactive, timeout);
    } else if s.pc == Snap {
      SnapshotKeepsInv(s, inactive, timeout);
    } else {
      ControlKeepsInv(s, inactive, timeout);
    }
  }

  lemma CallKeepsInv(s: Rx, space: nat, nonblock: bool)
    requires RxInv(s)
    ensures RxInv(RxNext(s, Call(space, nonblock)))
  {
    hide Contents, Wrap;
    assert Unread(RxNext(s, Call(space, nonblock))) == Unread(s);
  }

  predicate HonestEvent(e: RxEvent) {
    e.RxIsr? ==> Honest(e.words)
  }

  lemma RxStepKeepsInv(s: Rx, e: RxEvent)
    requires RxInv(s) && HonestEvent(e)
    ensures RxInv(RxNext(s, e))
  {
    hide RxInv, IsrRx, ReaderStep;
    match e
    case Call(space, nonblock) => CallKeepsInv(s, space, nonblock);
    case Reader(inactive, timeout) => ReaderKeepsInv(s, inactive, timeout);
    case RxIsr(words) => IsrKeepsInv(s, words, 1);
  }

  /** The state after any interleaving of calls, reader steps and interrupts. */
  function RxRun(buf: seq<byte>, events: seq<RxEvent>): (s: Rx)
    requires |buf| >= 2 && forall e :: e in events ==> HonestEvent(e)
    ensures RxInv(s)
  {
    if events == [] then RxInit(buf)
    else
      var front := RxRun(buf, events[..|events| - 1]);
      RxStepKeepsInv(front, events[|events| - 1]);
      RxNext(front, events[|events| - 1])
  }

  /** What the interrupt pops is appended; no unread slot changes and the ring never overfills. */
  lemma IsrOnlyAppends(s: Rx, words: seq<FifoWord>, avail: nat)
    requires s.inp < |s.buf| && s.outp < |s.buf|
    ensures var r := IsrRx(s, words, avail);
            && |r.buf| == |s.buf| && r.inp < |r.buf| && r.outp == s.outp
            && Unread(s) <= Unread(r)
            && s.popped <= r.popped && r.popped[|s.popped|..] == Unread(r)[|Unread(s)|..]
  {
    hide Contents, Data, Taken, LeftBehind, IsrRx;
    IsrTakes(s, words, avail);
  }

  /** The number of words before the first one that is not valid. */
  function Leading(words: seq<FifoWord>): (k: nat)
    ensures k <= |words| && forall j :: 0 <= j < k ==> words[j].valid
    ensures k < |words| ==> !words[k].valid
  {
    if words == [] || !words[0].valid then 0 else 1 + Leading(words[1..])
  }

  function Data(words: seq<FifoWord>): (d: seq<byte>)
    ensures |d| == |words| && forall j :: 0 <= j < |d| ==> d[j] == words[j].data
  {
    seq(|words|, j requires 0 <= j < |words| => words[j].data)
  }

  /** The slots that can still be filled. */
  function Room(s: Rx): (r: nat)
    requires s.inp < |s.buf| && s.outp < |s.buf|
  {
    |s.buf| - 1 - |Unread(s)|
  }

  /** How many words one interrupt takes: as many as there is room for, up to the first invalid one. */
  function Taken(s: Rx, words: seq<FifoWord>): (k: nat)
    requires s.inp < |s.buf| && s.outp < |s.buf|
    ensures k <= |words|
  {
    Min(Room(s), Leading(words))
  }

  /** What the last word read before the loop ended said about the bytes behind it; a script that ran out says none. */
  function LeftBehind(s: Rx, words: seq<FifoWord>, avail: nat): nat
    requires s.inp < |s.buf| && s.outp < |s.buf|
  {
    var k := Taken(s, words);
    if k == Room(s) then (if k == 0 then avail else words[k - 1].avail)
    else if k == |words| then 0
    else words[k].avail
  }

  /**
   One interrupt stores exactly the bytes of the words it takes, in order, and turns itself off exactly if the
   last word it read left something behind. Nothing else changes but the buffer and its input index.
   */
  lemma {:induction false} IsrTakes(s: Rx, words: seq<FifoWord>, avail: nat)
    requires s.inp < |s.buf| && s.outp < |s.buf|
    ensures var r, d := IsrRx(s, words, avail), Data(words[..Taken(s, words)]);
            && |r.buf| == |s.buf| && r.inp < |r.buf|
            && r == s.(buf := r.buf, inp := r.inp, popped := s.popped + d,
                       re := s.re && LeftBehind(s, words, avail) == 0)
            && Unread(r) == Unread(s) + d
    decreases |words|
  {
    hide Contents, Store, Full, IsrRx, Data, Taken, LeftBehind, Room;
    IsrRxStep(s, words, avail);
    if !Full(s) && words != [] && words[0].valid {
      TakeFirst(s, words, avail);
      IsrTakes(Store(s, words[0].data), words[1..], words[0].avail);
    } else {
      NothingTaken(s, words, avail);
    }
  }

  /** Taking a first word leaves the rest to be taken. */
  lemma TakeFirst(s: Rx, words: seq<FifoWord>, avail: nat)
    requires s.inp < |s.buf| && s.outp < |s.buf| && !Full(s) && words != [] && words[0].valid
    ensures var t := Store(s, words[0].data);
            && |t.buf| == |s.buf| && t.inp < |t.buf| && t.outp < |t.buf|
            && t == s.(buf := t.buf, inp := t.inp, popped := t.popped)
            && LeftBehind(t, words[1..], words[0].avail) == LeftBehind(s, words, avail)
            && (var d := Data(words[1..][..Taken(t, words[1..])]);
                && t.popped + d == s.popped + Data(words[..Taken(s, words)])
                && Unread(t) + d == Unread(s) + Data(words[..Taken(s, words)]))
  {
    hide Contents, Store, Full, Data;
    FullIff(s);
    StoreFacts(s, words[0].data);
    FirstTaken(words, Taken(s, words));
    Regrouped(s.popped, words[0].data, Data(words[1..][..Taken(s, words) - 1]));
    Regrouped(Unread(s), words[0].data, Data(words[1..][..Taken(s, words) - 1]));
  }

  lemma Regrouped(a: seq<byte>, b: byte, c: seq<byte>)
    ensures (a + [b]) + c == a + ([b] + c)
  {
  }

  lemma NothingTaken(s: Rx, words: seq<FifoWord>, avail: nat)
    requires s.inp < |s.buf| && s.outp < |s.buf| && (Full(s) || words == [] || !words[0].valid)
    ensures Data(words[..Taken(s, words)]) == []
    ensures LeftBehind(s, words, avail) == if Full(s) then avail else if words == [] then 0 else words[0].avail
  {
    hide Contents, Full;
    FullIff(s);
  }

  lemma IsrRxStep(s: Rx, words: seq<FifoWord>, avail: nat)
    requires s.inp < |s.buf| && s.outp < |s.buf|
    ensures Full(s) ==> IsrRx(s, words, avail) == Finish(s, avail)
    ensures !Full(s) && words == [] ==> IsrRx(s, words, avail) == s
    ensures !Full(s) && words != [] && !words[0].valid ==> IsrRx(s, words, avail) == Finish(s, words[0].avail)
    ensures !Full(s) && words != [] && words[0].valid ==>
              IsrRx(s, words, avail) == IsrRx(Store(s, words[0].data), words[1..], words[0].avail)
  {
  }

  lemma FirstTaken(words: seq<FifoWord>, k: nat)
    requires 0 < k <= |words|
    ensures Data(words[..k]) == [words[0].data] + Data(words[1..][..k - 1])
  {
  }

  lemma StoreFacts(s: Rx, b: byte)
    requires s.inp < |s.buf| && s.outp < |s.buf| && !Full(s)
    ensures var t := Store(s, b);
            && |t.buf| == |s.buf| && t.inp < |t.buf| && t.outp == s.outp && t.popped == s.popped + [b]
            && t == s.(buf := t.buf, inp := t.inp, popped := t.popped) && Unread(t) == Unread(s) + [b]
  {
    StoreAppends(s, b);
  }

  /** The bytes the interrupts took from the hardware, in order. */
  function HandedOut(buf: seq<byte>, events: seq<RxEvent>): seq<byte>
    requires |buf| >= 2 && forall e :: e in events ==> HonestEvent(e)
  {
    if events == [] then []
    else
      var n := |events| - 1;
      HandedOut(buf, events[..n]) +
      match events[n]
      case RxIsr(words) => Data(words[..Taken(RxRun(buf, events[..n]), words)])
      case _ => []
  }

  lemma PoppedStep(s: Rx, e: RxEvent)
    requires RxInv(s)
    ensures RxNext(s, e).popped == s.popped + if e.RxIsr? then Data(e.words[..Taken(s, e.words)]) else []
  {
    assert s.inp < |s.buf| && s.outp < |s.buf|;
    hide RxInv, IsrRx, Data, Taken;
    if e.RxIsr? {
      IsrTakes(s, e.words, 1);
    }
  }

  lemma {:induction false} PoppedIsHandedOut(buf: seq<byte>, events: seq<RxEvent>)
    requires |buf| >= 2 && forall e :: e in events ==> HonestEvent(e)
    ensures RxRun(buf, events).popped == HandedOut(buf, events)
  {
    hide RxInv, RxNext, Data, Taken;
    if events != [] {
      var n := |events| - 1;
      PoppedIsHandedOut(buf, events[..n]);
      PoppedStep(RxRun(buf, events[..n]), events[n]);
    }
  }

  /**
   Successive reads deliver the bytes the hardware handed out, in order; what is not yet delivered is still
   stored.
   */
  lemma DeliveredIsPrefixOfPopped(buf: seq<byte>, events: seq<RxEvent>)
    requires |buf| >= 2 && forall e :: e in events ==> HonestEvent(e)
    ensures var s := RxRun(buf, events);
            && s.popped == HandedOut(buf, events) == s.delivered + Unread(s)
            && s.delivered <= HandedOut(buf, events) && |Unread(s)| <= |s.buf| - 1
  {
    hide Contents, HandedOut;
    PoppedIsHandedOut(buf, events);
    var s := RxRun(buf, events);
    assert s.delivered == s.popped[..|s.delivered|];
  }

  // ----- From a call to its return -----

  predicate NoCalls(events: seq<RxEvent>) {
    forall e :: e in events ==> !e.Call?
  }

  predicate AllHonest(events: seq<RxEvent>) {
    forall e :: e in events ==> HonestEvent(e)
  }

  /** The state some events after a call. */
  function InCall(buf: seq<byte>, before: seq<RxEvent>, space: nat, nonblock: bool, during: seq<RxEvent>): (s: Rx)
    requires |buf| >= 2 && AllHonest(before) && AllHonest(during)
    ensures RxInv(s)
  {
    RxRun(buf, before + [Call(space, nonblock)] + during)
  }

  lemma InCallNext(buf: seq<byte>, before: seq<RxEvent>, space: nat, nonblock: bool, during: seq<RxEvent>)
    requires |buf| >= 2 && AllHonest(before) && AllHonest(during)
    ensures InCall(buf, before, space, nonblock, []) == RxNext(RxRun(buf, before), Call(space, nonblock))
    ensures during != [] ==>
              var n := |during| - 1;
              InCall(buf, before, space, nonblock, during) ==
                  RxNext(InCall(buf, before, space, nonblock, during[..n]), during[n])
  {
    hide RxNext, RxInv, HonestEvent;
    var all := before + [Call(space, nonblock)];
    assert all + [] == all && all[..|all| - 1] == before;
    if during != [] {
      assert (all + during)[..|all + during| - 1] == all + during[..|during| - 1];
    }
  }

  /** A reader's step found the time allowed without a host used up. */
  predicate SeenTimeout(during: seq<RxEvent>) {
    exists e :: e in during && e.Reader? && e.inactive >= e.timeout
  }

  /**
   What a call that began with the given arguments is made of: its place in the stream, the space left, and, for a
   reader that has found nothing, that the ring was empty when it looked.
   */
  predicate CallInv(s: Rx, space: nat, nonblock: bool, start: nat)
    requires RxInv(s)
  {
    && s.nonblock == nonblock && s.base == start && s.ptr + s.space == space
    && (s.pc == After && s.ptr == 0 ==> s.lin == s.outp && space > 0)
    && (s.pc == Spin || s.pc == Woken ==> s.lin == s.outp && space > 0 && !nonblock)
  }

  lemma IsrKeepsCall(s: Rx, words: seq<FifoWord>, space: nat, nonblock: bool, start: nat)
    requires RxInv(s) && RxInv(IsrRx(s, words, 1)) && CallInv(s, space, nonblock, start)
    ensures CallInv(IsrRx(s, words, 1), space, nonblock, start)
  {
    assert s.inp < |s.buf| && s.outp < |s.buf|;
    hide RxInv, IsrRx, Data, Taken, LeftBehind;
    IsrTakes(s, words, 1);
  }

  lemma ReaderKeepsCall(s: Rx, inactive: nat, timeout: nat, space: nat, nonblock: bool, start: nat)
    requires RxInv(s) && RxInv(ReaderStep(s, inactive, timeout)) && CallInv(s, space, nonblock, start)
    ensures CallInv(ReaderStep(s, inactive, timeout), space, nonblock, start)
  {
    hide RxInv, ReaderStep;
    if s.pc == Copy {
      CopyKeepsCall(s, inactive, timeout, space, nonblock, start);
    } else {
      ControlKeepsCall(s, inactive, timeout, space, nonblock, start);
    }
  }

  lemma CopyKeepsCall(s: Rx, inactive: nat, timeout: nat, space: nat, nonblock: bool, start: nat)
    requires RxInv(s) && RxInv(ReaderStep(s, inactive, timeout)) && CallInv(s, space, nonblock, start)
    requires s.pc == Copy
    ensures CallInv(ReaderStep(s, inactive, timeout), space, nonblock, start)
  {
    hide Contents, Wrap;
    assert CopyInv(s);
    hide RxInv;
  }

  lemma ControlKeepsCall(s: Rx, inactive: nat, timeout: nat, space: nat, nonblock: bool, start: nat)
    requires RxInv(s) && RxInv(ReaderStep(s, inactive, timeout)) && CallInv(s, space, nonblock, start)
    requires s.pc != Copy
    ensures CallInv(ReaderStep(s, inactive, timeout), space, nonblock, start)
  {
    hide Contents, Wrap;
  }

  /** A step keeps the bytes delivered so far. */
  lemma StepOnlyDelivers(s: Rx, e: RxEvent)
    requires RxInv(s) && !e.Call?
    ensures s.delivered <= RxNext(s, e).delivered
  {
    match e
    case Reader(inactive, timeout) =>
    case RxIsr(words) =>
      hide IsrRx, Contents, Data, Taken, LeftBehind;
      IsrTakes(s, words, 1);
  }

  lemma StepKeepsCall(s: Rx, e: RxEvent, space: nat, nonblock: bool, start: nat)
    requires RxInv(s) && !e.Call? && HonestEvent(e) && CallInv(s, space, nonblock, start)
    ensures RxInv(RxNext(s, e)) && CallInv(RxNext(s, e), space, nonblock, start)
  {
    hide RxInv, IsrRx, ReaderStep, CallInv;
    RxStepKeepsInv(s, e);
    match e
    case Reader(inactive, timeout) => ReaderKeepsCall(s, inactive, timeout, space, nonblock, start);
    case RxIsr(words) => IsrKeepsCall(s, words, space, nonblock, start);
  }

  lemma StartOf(s: Rx, space: nat, nonblock: bool, start: nat)
    requires RxInv(s) && CallInv(s, space, nonblock, start)
    ensures s.base == start
  {
  }

  lemma CallBegins(s: Rx, space: nat, nonblock: bool)
    requires RxInv(s) && s.pc == Idle
    ensures var t := RxNext(s, Call(space, nonblock));
            RxInv(t) && CallInv(t, space, nonblock, |s.delivered|) && t.pc == Outer
            && t.delivered == s.delivered && t.re == s.re
  {
    hide RxInv;
    CallKeepsInv(s, space, nonblock);
  }

  /** The reader turns the interrupt on only if it has made room; the interrupt never does. */
  lemma StepEnables(s: Rx, e: RxEvent)
    requires RxInv(s) && !e.Call?
    ensures RxNext(s, e).re ==> s.re || s.base < |s.delivered|
  {
    match e
    case Reader(inactive, timeout) => hide Contents, Wrap;
    case RxIsr(words) =>
      hide IsrRx, Contents, Data, Taken, LeftBehind;
      IsrTakes(s, words, 1);
  }

  /**
   Until its return, and after it, a call works on its own arguments, and it turns the interrupt on only if it has
   delivered something.
   */
  lemma {:induction false} DuringCall(buf: seq<byte>, before: seq<RxEvent>, space: nat, nonblock: bool,
                                      during: seq<RxEvent>)
    requires |buf| >= 2 && AllHonest(before) && AllHonest(during) && RxRun(buf, before).pc == Idle && NoCalls(during)
    ensures var s, was := InCall(buf, before, space, nonblock, during), RxRun(buf, before).delivered;
            && CallInv(s, space, nonblock, |was|) && was <= s.delivered
            && (s.re ==> RxRun(buf, before).re || was < s.delivered)
    decreases |during|
  {
    InCallNext(buf, before, space, nonblock, during);
    hide RxRun, InCall, RxInv, RxNext, CallInv, HonestEvent;
    if during == [] {
      CallBegins(RxRun(buf, before), space, nonblock);
    } else {
      var n := |during| - 1;
      DuringCall(buf, before, space, nonblock, during[..n]);
      var s := InCall(buf, before, space, nonblock, during[..n]);
      StepKeepsCall(s, during[n], space, nonblock, |RxRun(buf, before).delivered|);
      StepOnlyDelivers(s, during[n]);
      StepEnables(s, during[n]);
      assert s.base ==
          |RxRun(buf, before).delivered| by { StartOf(s, space, nonblock, |RxRun(buf, before).delivered|); }
    }
  }

  /** What a call has delivered when it returns, in terms of its own arguments. */
  lemma CallReturns(buf: seq<byte>, before: seq<RxEvent>, space: nat, nonblock: bool, during: seq<RxEvent>,
                    inactive: nat, timeout: nat)
    requires |buf| >= 2 && AllHonest(before) && AllHonest(during) && RxRun(buf, before).pc == Idle && NoCalls(during)
    requires InCall(buf, before, space, nonblock, during).pc == Return
    ensures var s := InCall(buf, before, space, nonblock, during);
            var r := RxNext(s, Reader(inactive, timeout)).ret;
            && s.delivered == RxRun(buf, before).delivered + s.user && |s.user| <= space
            && (r > 0 ==> r == |s.user|)
            && (r <= 0 ==> s.user == [] && r == if nonblock then -EWOULDBLOCK else -EIO)
  {
    hide RxRun, InCall, RxInv, RxNext, CallInv, HonestEvent;
    DuringCall(buf, before, space, nonblock, during);
    ReturnValue(InCall(buf, before, space, nonblock, during), space, nonblock, RxRun(buf, before).delivered, inactive,
                timeout);
  }

  lemma ReturnValue(s: Rx, space: nat, nonblock: bool, was: seq<byte>, inactive: nat, timeout: nat)
    requires RxInv(s) && s.pc == Return && CallInv(s, space, nonblock, |was|) && was <= s.delivered
    ensures var r := RxNext(s, Reader(inactive, timeout)).ret;
            && s.delivered == was + s.user && |s.user| <= space
            && (r > 0 ==> r == |s.user|)
            && (r <= 0 ==> s.user == [] && r == if nonblock then -EWOULDBLOCK else -EIO)
  {
    hide Contents, Wrap;
    assert s.user[..s.ptr] == s.user && s.delivered[..|was|] == was;
    assert s.delivered == s.delivered[..|was|] + s.delivered[|was|..];
  }

  /** A blocking reader that has not run out of time has found something by the time it leaves. */
  predicate Found(s: Rx) {
    (s.pc == Woken ==> s.inp != s.outp) && (s.pc == Exit || s.pc == Return ==> s.ptr > 0)
  }

  lemma StepFinds(s: Rx, e: RxEvent, space: nat, start: nat)
    requires RxInv(s) && CallInv(s, space, false, start) && space > 0 && Found(s)
    requires !e.Call? && (e.Reader? ==> e.inactive < e.timeout)
    ensures Found(RxNext(s, e))
  {
    hide Contents;
    match e
    case Reader(inactive, timeout) =>
    case RxIsr(words) =>
      hide IsrRx, Data, Taken, LeftBehind;
      IsrTakes(s, words, 1);
  }

  /** A blocking call for at least one byte that does not run out of time returns with at least one. */
  lemma {:induction false} BlockingReadDelivers(buf: seq<byte>, before: seq<RxEvent>, space: nat,
                                                during: seq<RxEvent>)
    requires |buf| >= 2 && AllHonest(before) && AllHonest(during) && RxRun(buf, before).pc == Idle && NoCalls(during)
    requires space > 0 && !SeenTimeout(during)
    ensures var s := InCall(buf, before, space, false, during);
            Found(s) && (s.pc == Return ==> RxRun(buf, before).delivered < s.delivered)
    decreases |during|
  {
    InCallNext(buf, before, space, false, during);
    DuringCall(buf, before, space, false, during);
    var s, was := InCall(buf, before, space, false, during), RxRun(buf, before).delivered;
    assert s.base + s.ptr == |s.delivered|;
    hide RxRun, InCall, RxInv, RxNext, HonestEvent, Found;
    if during == [] {
      CallBegins(RxRun(buf, before), space, false);
    } else {
      var n := |during| - 1;
      DuringCall(buf, before, space, false, during[..n]);
      BlockingReadDelivers(buf, before, space, during[..n]);
      StepFinds(InCall(buf, before, space, false, during[..n]), during[n], space, |was|);
    }
  }

  predicate EmptyAfter(buf: seq<byte>, before: seq<RxEvent>, space: nat, nonblock: bool, during: seq<RxEvent>)
    requires |buf| >= 2 && AllHonest(before) && AllHonest(during)
  {
    Unread(InCall(buf, before, space, nonblock, during)) == []
  }

  predicate EmptySeen(buf: seq<byte>, before: seq<RxEvent>, space: nat, nonblock: bool, during: seq<RxEvent>)
    requires |buf| >= 2 && AllHonest(before) && AllHonest(during)
  {
    exists j :: 0 <= j <= |during| && EmptyAfter(buf, before, space, nonblock, during[..j])
  }

  lemma EmptySeenNext(buf: seq<byte>, before: seq<RxEvent>, space: nat, nonblock: bool, during: seq<RxEvent>)
    requires |buf| >= 2 && AllHonest(before) && AllHonest(during) && during != []
    requires var front := during[..|during| - 1];
             EmptySeen(buf, before, space, nonblock, front) || EmptyAfter(buf, before, space, nonblock, front)
    ensures EmptySeen(buf, before, space, nonblock, during)
  {
    hide EmptyAfter, HonestEvent;
    var n := |during| - 1;
    if EmptySeen(buf, before, space, nonblock, during[..n]) {
      var j :| 0 <= j <= n && EmptyAfter(buf, before, space, nonblock, during[..n][..j]);
      assert during[..n][..j] == during[..j];
    }
  }

  /** Past its copying the reader has all it was asked for or has seen the ring empty. */
  predicate PastCopying(pc: ReaderPc) {
    pc != Outer && pc != Snap && pc != Copy && pc != Idle
  }

  lemma StopsWhenEmpty(s: Rx, e: RxEvent, space: nat, nonblock: bool, start: nat)
    requires RxInv(s) && CallInv(s, space, nonblock, start) && !e.Call?
    requires Unread(s) != [] && (PastCopying(s.pc) ==> s.space == 0)
    ensures PastCopying(RxNext(s, e).pc) ==> RxNext(s, e).space == 0
  {
    match e
    case Reader(inactive, timeout) =>
    case RxIsr(words) =>
      hide IsrRx, Contents, Data, Taken, LeftBehind;
      IsrTakes(s, words, 1);
  }

  lemma {:induction false} EmptyOrDone(buf: seq<byte>, before: seq<RxEvent>, space: nat, nonblock: bool,
                                       during: seq<RxEvent>)
    requires |buf| >= 2 && AllHonest(before) && AllHonest(during) && RxRun(buf, before).pc == Idle && NoCalls(during)
    ensures var s := InCall(buf, before, space, nonblock, during);
            EmptySeen(buf, before, space, nonblock, during) || (PastCopying(s.pc) ==> s.space == 0)
    decreases |during|
  {
    InCallNext(buf, before, space, nonblock, during);
    hide RxRun, InCall, RxInv, RxNext, HonestEvent, EmptyAfter, EmptySeen, CallInv;
    if during == [] {
      CallBegins(RxRun(buf, before), space, nonblock);
    } else {
      var n := |during| - 1;
      DuringCall(buf, before, space, nonblock, during[..n]);
      EmptyOrDone(buf, before, space, nonblock, during[..n]);
      if EmptySeen(buf, before, space, nonblock, during[..n]) || EmptyAfter(buf, before, space, nonblock, during[..n]) {
        EmptySeenNext(buf, before, space, nonblock, during);
      } else {
        NotEmpty(buf, before, space, nonblock, during[..n]);
        StopsWhenEmpty(InCall(buf, before, space, nonblock, during[..n]), during[n], space, nonblock,
                       |RxRun(buf, before).delivered|);
      }
    }
  }

  lemma NotEmpty(buf: seq<byte>, before: seq<RxEvent>, space: nat, nonblock: bool, during: seq<RxEvent>)
    requires |buf| >= 2 && AllHonest(before) && AllHonest(during)
    requires !EmptyAfter(buf, before, space, nonblock, during)
    ensures Unread(InCall(buf, before, space, nonblock, during)) != []
  {
    hide InCall, Contents, HonestEvent;
  }

  /** A call returns with fewer bytes than asked for only if the ring was empty at some moment during it. */
  lemma ShortOnlyWhenEmpty(buf: seq<byte>, before: seq<RxEvent>, space: nat, nonblock: bool, during: seq<RxEvent>)
    requires |buf| >= 2 && AllHonest(before) && AllHonest(during) && RxRun(buf, before).pc == Idle && NoCalls(during)
    ensures var s := InCall(buf, before, space, nonblock, during);
            s.pc == Return && |s.delivered| < |RxRun(buf, before).delivered| + space ==>
              EmptySeen(buf, before, space, nonblock, during)
  {
    EmptyOrDone(buf, before, space, nonblock, during);
    DuringCall(buf, before, space, nonblock, during);
    var s := InCall(buf, before, space, nonblock, during);
    assert s.base + s.ptr == |s.delivered|;
  }

  // ----- Waiting and returning -----

  /** A waiting reader goes on waiting exactly as long as the ring is empty and the host has not timed out. */
  lemma WaitsWhileEmpty(buf: seq<byte>, before: seq<RxEvent>, space: nat, nonblock: bool, during: seq<RxEvent>,
                        inactive: nat, timeout: nat)
    requires |buf| >= 2 && AllHonest(before) && AllHonest(during) && RxRun(buf, before).pc == Idle && NoCalls(during)
    requires InCall(buf, before, space, nonblock, during).pc == Spin
    ensures var s := InCall(buf, before, space, nonblock, during);
            RxNext(s, Reader(inactive, timeout)).pc == Spin <==> Unread(s) == [] && inactive < timeout
  {
    hide RxRun, InCall, Wrap;
    DuringCall(buf, before, space, nonblock, during);
  }

  /** How many reader steps a call can still take if it does not wait: it finds the ring empty at most once. */
  function ReturnRank(s: Rx): int {
    match s.pc
    case Outer => if s.inp == s.outp then 3 * s.space + 10 else 3 * s.space + 5
    case Snap => if s.inp == s.outp && s.ptr == 0 then 3 * s.space + 9 else 3 * s.space + 4
    case Copy => 3 * s.space + 3 - s.i
    case After => if s.ptr > 0 || s.nonblock then 2 else 3 * s.space + 8
    case Spin => 3 * s.space + 7
    case Woken => 3 * s.space + 6
    case Exit => 1
    case _ => 0
  }

  function ReaderSteps(events: seq<RxEvent>): nat {
    if events == [] then 0
    else ReaderSteps(events[..|events| - 1]) + if events[|events| - 1].Reader? then 1 else 0
  }

  predicate Returned(s: Rx) {
    s.pc == Return || s.pc == Idle
  }

  /** Every reader's step sees a host that has timed out. */
  predicate HostDead(events: seq<RxEvent>) {
    forall e :: e in events ==> e.Reader? ==> e.inactive >= e.timeout
  }

  lemma ReaderNearsReturn(s: Rx, inactive: nat, timeout: nat, space: nat, nonblock: bool, start: nat)
    requires RxInv(s) && CallInv(s, space, nonblock, start) && (nonblock || inactive >= timeout)
    ensures var t := ReaderStep(s, inactive, timeout);
            && (Returned(s) ==> Returned(t))
            && (!Returned(s) ==> ReturnRank(t) < ReturnRank(s))
  {
    hide Contents, Wrap;
  }

  lemma RankPositive(s: Rx)
    requires RxInv(s)
    ensures Returned(s) || ReturnRank(s) > 0
  {
    hide Contents, Wrap;
  }

  lemma IsrNearsReturn(s: Rx, words: seq<FifoWord>)
    requires RxInv(s)
    ensures var t := IsrRx(s, words, 1);
            (Returned(s) <==> Returned(t)) && ReturnRank(t) <= ReturnRank(s)
  {
    assert s.inp < |s.buf| && s.outp < |s.buf|;
    hide RxInv, IsrRx, Data, Taken, LeftBehind;
    IsrTakes(s, words, 1);
  }

  /** A call that does not block, or whose host is dead, returns within a number of steps of its reader. */
  lemma {:induction false} CallEnds(buf: seq<byte>, before: seq<RxEvent>, space: nat, nonblock: bool,
                                    during: seq<RxEvent>)
    requires |buf| >= 2 && AllHonest(before) && AllHonest(during) && RxRun(buf, before).pc == Idle && NoCalls(during)
    requires nonblock || HostDead(during)
    ensures var s := InCall(buf, before, space, nonblock, during);
            Returned(s) || 0 < ReturnRank(s) <= 3 * space + 10 - ReaderSteps(during)
    ensures ReaderSteps(during) >= 3 * space + 10 ==> Returned(InCall(buf, before, space, nonblock, during))
    decreases |during|
  {
    InCallNext(buf, before, space, nonblock, during);
    RankPositive(InCall(buf, before, space, nonblock, during));
    hide RxRun, InCall, RxInv, HonestEvent, HostDead, ReturnRank, Returned, CallInv, IsrRx, ReaderStep;
    if during == [] {
      CallRank(RxRun(buf, before), space, nonblock);
    } else {
      var n := |during| - 1;
      var s := InCall(buf, before, space, nonblock, during[..n]);
      DuringCall(buf, before, space, nonblock, during[..n]);
      DeadParts(during);
      CallEnds(buf, before, space, nonblock, during[..n]);
      match during[n]
      case Reader(inactive, timeout) =>
        ReaderNearsReturn(s, inactive, timeout, space, nonblock, |RxRun(buf, before).delivered|);
      case RxIsr(words) => IsrNearsReturn(s, words);
    }
  }

  lemma CallRank(s: Rx, space: nat, nonblock: bool)
    requires RxInv(s) && s.pc == Idle
    ensures ReturnRank(RxNext(s, Call(space, nonblock))) <= 3 * space + 10
  {
    hide RxInv;
  }

  lemma DeadParts(during: seq<RxEvent>)
    requires during != []
    ensures HostDead(during) ==> HostDead(during[..|during| - 1])
    ensures var e := during[|during| - 1]; HostDead(during) && e.Reader? ==> e.inactive >= e.timeout
  {
  }

  /** When a call returns, a positive result r means r bytes were delivered into the caller's buffer. */
  lemma ReadResult(buf: seq<byte>, events: seq<RxEvent>, inactive: nat, timeout: nat)
    requires |buf| >= 2 && (forall e :: e in events ==> HonestEvent(e)) && RxRun(buf, events).pc == Return
    ensures var s := RxRun(buf, events);
            var r := RxNext(s, Reader(inactive, timeout)).ret;
            && s.base <= |s.delivered| && s.delivered[s.base..] == s.user
            && (r > 0 ==> r == |s.user|)
            && (r <= 0 ==> s.user == [] && r == if s.nonblock then -EWOULDBLOCK else -EIO)
  {
    hide Contents;
    var s := RxRun(buf, events);
    assert s.user[..s.ptr] == s.user;
  }

  /**
   A stopped receive interrupt means the ring is full or a reader that has made room has yet to
   restart it; a reader spinning on an empty ring never waits on a stopped interrupt.
   */
  lemma NoLostReceiveWakeup(buf: seq<byte>, events: seq<RxEvent>)
    requires |buf| >= 2 && forall e :: e in events ==> HonestEvent(e)
    ensures var s := RxRun(buf, events);
            && (!s.re ==> |Unread(s)| == |s.buf| - 1 || BeforeEnable(s))
            && (s.pc == Spin && Unread(s) == [] ==> s.re)
  {
    hide Contents, Full;
    FullIff(RxRun(buf, events));
  }

  function EnableRank(s: Rx): int {
    match s.pc
    case Snap => 3 * s.space + 3
    case Copy => 3 * s.space + 2 - s.i
    case After => 1
    case _ => 0
  }

  /** An interrupt neither moves the reader nor makes it wait longer. */
  lemma {:induction false} IsrKeepsRank(s: Rx, words: seq<FifoWord>, avail: nat)
    requires s.inp < |s.buf| && s.outp < |s.buf|
    ensures var r := IsrRx(s, words, avail);
            r.pc == s.pc && r.ptr == s.ptr && r.space == s.space && r.i == s.i && EnableRank(r) == EnableRank(s)
            && (BeforeEnable(r) <==> BeforeEnable(s))
    decreases |words|
  {
    hide Full, Contents;
    if !Full(s) && words != [] && words[0].valid {
      StoreFacts(s, words[0].data);
      IsrKeepsRank(Store(s, words[0].data), words[1..], words[0].avail);
    }
  }

  /** A reader that has made room gets closer to restarting the interrupt with each step, and does restart it. */
  lemma EnableComes(s: Rx, inactive: nat, timeout: nat)
    requires RxInv(s) && BeforeEnable(s)
    ensures EnableRank(s) >= 0
    ensures var r := ReaderStep(s, inactive, timeout);
            if s.pc == Exit then r.re else BeforeEnable(r) && EnableRank(r) < EnableRank(s)
  {
    hide Contents, Wrap;
  }
}
