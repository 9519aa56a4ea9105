/**
  One connection of the user-space TCP bridge of core/tincd/src/diag.c: sequence numbers of 32 bits,
  buffers of fixed size, retransmission and partial acceptance (section 3.4 of RFC 9293).  What the
  sockets and the clock do is arbitrary.
  */
module TcpBridge {
  import opened Bits

  const TWO32: int := 0x1_0000_0000
  const TWO31: int := 0x8000_0000
  const MSS := 1024
  const INFLIGHT := 16384
  const TX_CAP := 65536
  const RX_CAP := 16384

  // ---------- Sequence numbers ----------

  function Wrap(x: int): (r: nat)
    ensures r < TWO32
  {
    x % TWO32
  }

  /** `(int32_t)(a - b)` */
  function Diff(a: int, b: int): (d: int)
    ensures -TWO31 <= d < TWO31
  {
    var d := (a - b) % TWO32;
    if d >= TWO31 then d - TWO32 else d
  }

  lemma WrapTurns(x: int, k: int)
    ensures Wrap(x + k * TWO32) == Wrap(x)
  {
    DivUnique(x + k * TWO32, TWO32, x / TWO32 + k, x % TWO32);
  }

  lemma WrapAdd(x: int, y: int)
    ensures Wrap(Wrap(x) + y) == Wrap(x + y)
  {
    WrapTurns(Wrap(x) + y, x / TWO32);
  }

  lemma WrapSmall(x: nat)
    ensures x < TWO32 ==> Wrap(x) == x
  {
  }

  lemma DiffWraps(x: int, y: int)
    ensures Diff(Wrap(x), Wrap(y)) == Diff(x, y)
  {
    assert x - y == Wrap(x) - Wrap(y) + (x / TWO32 - y / TWO32) * TWO32;
    WrapTurns(Wrap(x) - Wrap(y), x / TWO32 - y / TWO32);
  }

  /** Wrapped numbers within 2^31 of each other compare as the numbers themselves. */
  lemma DiffExact(x: int, y: int)
    requires -TWO31 <= x - y < TWO31
    ensures Diff(Wrap(x), Wrap(y)) == x - y
  {
    DiffWraps(x, y);
  }

  lemma WrapSame(x: int, y: int)
    requires -TWO32 < x - y < TWO32 && Wrap(x) == Wrap(y)
    ensures x == y
  {
  }

  // ---------- Segments ----------

  /** A segment from the peer, for an existing connection. */
  datatype Segment = Segment(
    seqno: nat,
    ackno: nat,
    syn: bool,
    fin: bool,
    rst: bool,
    ack: bool,
    window: nat,
    payload: seq<Byte>)

  /** The segment opens a connection. */
  predicate Opens(s: Segment) {
    s.syn && !s.ack
  }

  datatype Kind = Data | Fin | PureAck | SynAck | Reset

  /** A segment the bridge sends; `at` is the offset of its payload in the local stream. */
  datatype Out = Out(kind: Kind, seqno: nat, ackno: nat, payload: seq<Byte>, at: nat)

  /** `o` carries the local bytes its sequence number names, or marks their end. */
  ghost predicate SaysTheTruth(o: Out, iss: nat, local: seq<Byte>, ended: bool) {
    match o.kind
    case Data => Carries(o, iss, local)
    case Fin => ended && o.payload == [] && o.seqno == Wrap(iss + 1 + |local|)
    case SynAck => o.payload == [] && o.seqno == iss
    case _ => o.payload == []
  }

  ghost predicate Carries(o: Out, iss: nat, local: seq<Byte>) {
    && 0 < |o.payload| <= MSS && o.at + |o.payload| <= |local|
    && o.seqno == Wrap(iss + 1 + o.at) && o.payload == local[o.at..o.at + |o.payload|]
  }

  /** The acknowledgment number of `o` covers only bytes accepted from the peer. */
  ghost predicate AcksAccepted(o: Out, irs: nat, upto: nat) {
    exists r: nat :: r <= upto && AcksUpTo(o, irs, r)
  }

  ghost predicate AcksUpTo(o: Out, irs: nat, r: nat) {
    o.ackno == Wrap(irs + 1 + r)
  }

  /** The data sent, repetitions included. */
  ghost function Carried(log: seq<Out>): seq<Byte> {
    if log == [] then [] else Carried(log[..|log| - 1]) + log[|log| - 1].payload
  }

  lemma CarriedSnoc(log: seq<Out>, o: Out)
    ensures Carried(log + [o]) == Carried(log) + o.payload
  {
    assert (log + [o])[..|log|] == log;
  }

  /** The local byte at offset `off` has gone out. */
  ghost predicate WentOut(log: seq<Out>, off: nat) {
    exists i :: 0 <= i < |log| && Holds(log[i], off)
  }

  predicate Holds(o: Out, off: nat) {
    o.kind == Data && o.at <= off < o.at + |o.payload|
  }

  /** The first `n` local bytes have all gone out. */
  ghost predicate AllOut(log: seq<Out>, n: nat) {
    forall off: nat :: off < n ==> WentOut(log, off)
  }

  /** `high` is the first local offset that has not gone out. */
  ghost predicate FirstUnsent(log: seq<Out>, high: nat) {
    AllOut(log, high) && !WentOut(log, high)
  }

  ghost predicate NoneBeyond(log: seq<Out>, high: nat) {
    forall i :: 0 <= i < |log| && log[i].kind == Data ==> log[i].at + |log[i].payload| <= high
  }

  /** As long as all acknowledged bytes have gone out, so has everything up to tx_sent_offset, and nothing beyond. */
  ghost predicate SentUpTo(log: seq<Out>, high: nat, acked: nat, txSent: nat) {
    FirstUnsent(log, high) && (acked <= high ==> acked + txSent <= high && NoneBeyond(log, high))
  }

  /** What has gone out without a gap is counted by the first offset that has not. */
  lemma AllOutExactly(log: seq<Out>, high: nat, n: nat)
    requires FirstUnsent(log, high)
    ensures n <= high <==> AllOut(log, n)
  {
  }

  lemma WentOutMore(log: seq<Out>, o: Out, off: nat)
    ensures WentOut(log + [o], off) <==> WentOut(log, off) || Holds(o, off)
  {
    var more := log + [o];
    if WentOut(log, off) {
      var i :| 0 <= i < |log| && Holds(log[i], off);
      assert Holds(more[i], off);
    }
    if Holds(o, off) {
      assert Holds(more[|log|], off);
    }
  }

  /** A segment without data changes nothing of it. */
  lemma SentOther(log: seq<Out>, o: Out, high: nat, acked: nat, txSent: nat)
    requires SentUpTo(log, high, acked, txSent) && o.kind != Data
    ensures SentUpTo(log + [o], high, acked, txSent)
  {
    hide WentOut;
    forall off: nat ensures WentOut(log + [o], off) <==> WentOut(log, off) {
      WentOutMore(log, o, off);
    }
  }

  /** A segment of the next bytes. */
  lemma SentNext(log: seq<Out>, o: Out, high: nat, acked: nat, txSent: nat)
    requires SentUpTo(log, high, acked, txSent) && o.kind == Data && o.at == acked + txSent && o.payload != []
    ensures var next := Reach(high, o.at, |o.payload|);
            && SentUpTo(log + [o], next, acked, txSent + |o.payload|)
            && high <= next && (acked <= next <==> acked <= high)
  {
    hide WentOut;
    forall off: nat ensures WentOut(log + [o], off) <==> WentOut(log, off) || Holds(o, off) {
      WentOutMore(log, o, off);
    }
    if acked <= high {
      forall off: nat | high <= off ensures !WentOut(log, off) {
        NotBeyond(log, high, off);
      }
    }
  }

  lemma NotBeyond(log: seq<Out>, high: nat, off: nat)
    requires NoneBeyond(log, high) && high <= off
    ensures !WentOut(log, off)
  {
  }

  /** How far the bytes sent without a gap reach after `n` more from `base` on. */
  function Reach(high: nat, base: nat, n: nat): nat {
    if base <= high < base + n then base + n else high
  }

  /** The segments of `b` after those of `a` carry only bytes from `acked` on that begin within `most` of it. */
  ghost predicate SendsFrom(a: seq<Out>, b: seq<Out>, acked: nat, most: nat) {
    a <= b && forall i :: |a| <= i < |b| && b[i].kind == Data ==> acked <= b[i].at < acked + most
  }

  function DataCount(log: seq<Out>): nat {
    if log == [] then 0 else DataCount(log[..|log| - 1]) + if log[|log| - 1].kind == Data then 1 else 0
  }

  lemma DataCountSnoc(log: seq<Out>, o: Out)
    ensures DataCount(log + [o]) == DataCount(log) + if o.kind == Data then 1 else 0
  {
    assert (log + [o])[..|log|] == log;
  }

  lemma OneData(a: seq<Out>, b: seq<Out>, o: Out, acked: nat, most: nat)
    requires SendsFrom(a, b, acked, most) && acked <= o.at < acked + most
    ensures SendsFrom(a, b + [o], acked, most)
  {
  }

  lemma NoneSent(a: seq<Out>, acked: nat, most: nat)
    ensures SendsFrom(a, a, acked, most)
  {
  }

  lemma OneOther(a: seq<Out>, b: seq<Out>, o: Out, acked: nat, most: nat)
    requires SendsFrom(a, b, acked, most) && o.kind != Data
    ensures SendsFrom(a, b + [o], acked, most) && DataCount(b + [o]) == DataCount(b)
  {
    DataCountSnoc(b, o);
  }

  /** So they do not change which bytes before `acked` have gone out. */
  lemma NoneBefore(a: seq<Out>, b: seq<Out>, acked: nat, most: nat)
    requires SendsFrom(a, b, acked, most)
    ensures AllOut(b, acked) <==> AllOut(a, acked)
  {
    forall off: nat | off < acked ensures WentOut(b, off) <==> WentOut(a, off) {
      if WentOut(b, off) {
        var i :| 0 <= i < |b| && Holds(b[i], off);
        assert Holds(a[i], off);
      }
      if WentOut(a, off) {
        var i :| 0 <= i < |a| && Holds(a[i], off);
        assert Holds(b[i], off);
      }
    }
  }

  /** Every segment of `log` is true of the local bytes so far, and acknowledges no more than was accepted. */
  ghost predicate HonestLog(log: seq<Out>, iss: nat, local: seq<Byte>, ended: bool, irs: nat, upto: nat) {
    && (forall i :: 0 <= i < |log| ==> SaysTheTruth(log[i], iss, local, ended))
    && (forall i :: 0 <= i < |log| ==> AcksAccepted(log[i], irs, upto))
  }

  lemma HonestMoreLocal(log: seq<Out>, iss: nat, local: seq<Byte>, more: seq<Byte>, irs: nat, upto: nat)
    requires HonestLog(log, iss, local, false, irs, upto)
    ensures HonestLog(log, iss, local + more, false, irs, upto)
  {
    forall i | 0 <= i < |log| ensures SaysTheTruth(log[i], iss, local + more, false) {
      var o := log[i];
      assert SaysTheTruth(o, iss, local, false);
      if o.kind == Data {
        assert (local + more)[o.at..o.at + |o.payload|] == local[o.at..o.at + |o.payload|];
      }
    }
  }

  lemma HonestEnd(log: seq<Out>, iss: nat, local: seq<Byte>, ended: bool, irs: nat, upto: nat)
    requires HonestLog(log, iss, local, ended, irs, upto)
    ensures HonestLog(log, iss, local, true, irs, upto)
  {
    forall i | 0 <= i < |log| ensures SaysTheTruth(log[i], iss, local, true) {
      assert SaysTheTruth(log[i], iss, local, ended);
    }
  }

  lemma HonestMoreAccepted(log: seq<Out>, iss: nat, local: seq<Byte>, ended: bool, irs: nat, upto: nat, upto': nat)
    requires HonestLog(log, iss, local, ended, irs, upto) && upto <= upto'
    ensures HonestLog(log, iss, local, ended, irs, upto')
  {
    forall i | 0 <= i < |log| ensures AcksAccepted(log[i], irs, upto') {
      assert AcksAccepted(log[i], irs, upto);
    }
  }

  lemma HonestSnoc(log: seq<Out>, o: Out, iss: nat, local: seq<Byte>, ended: bool, irs: nat, upto: nat)
    requires HonestLog(log, iss, local, ended, irs, upto) && SaysTheTruth(o, iss, local, ended)
               && AcksUpTo(o, irs, upto)
    ensures HonestLog(log + [o], iss, local, ended, irs, upto)
  {
    assert AcksAccepted(o, irs, upto);
  }

  /** How far ahead of the acknowledged bytes a window lets sending run. */
  function Inflight(window: nat): (most: nat)
    ensures window < MSS ==> most == MSS
    ensures MSS <= window <= INFLIGHT ==> most == window
    ensures window > INFLIGHT ==> most == INFLIGHT
  {
    var most := if window < INFLIGHT then window else INFLIGHT;
    if most < MSS then MSS else most
  }

  // ---------- What the local socket answers ----------

  /** What send() does when offered bytes: it takes up to `n` of them, would block, or fails. */
  datatype Taking = Takes(n: nat) | TakesLater | TakeFails

  /** What recv() does: it gives some bytes, none at the end of the stream, would block, or fails. */
  datatype Giving = Gives(data: seq<Byte>) | GivesLater | GiveFails

  /** The answers to the calls made while one event is handled, in order; after them a call would block. */
  datatype Socket = Socket(payload: seq<Taking>, fin: seq<Taking>, given: seq<Giving>)

  function Least(a: nat, b: nat): nat { if a <= b then a else b }

  /** Of `rem` bytes offered in at most `calls` calls: how many are taken, and whether the local side is given up. */
  function Flushed(rem: nat, answers: seq<Taking>, calls: nat): (r: (nat, bool))
    ensures r.0 <= rem
  {
    if rem == 0 || calls == 0 || answers == [] then (0, false)
    else
      match answers[0]
      case TakesLater => (0, false)
      case TakeFails => (0, true)
      case Takes(n) =>
        if n == 0 then (0, true)
        else
          var (more, ends) := Flushed(rem - Least(n, rem), answers[1..], calls - 1);
          (Least(n, rem) + more, ends)
  }

  /** Bytes read into `room` in at most `calls` calls, and whether the local side has ended. */
  function Given(room: nat, answers: seq<Giving>, calls: nat): (r: (seq<Byte>, bool))
    ensures |r.0| <= room
  {
    if room == 0 || calls == 0 || answers == [] then ([], false)
    else
      match answers[0]
      case GivesLater => ([], false)
      case GiveFails => ([], true)
      case Gives(data) =>
        if data == [] then ([], true)
        else
          var now := data[..Least(|data|, room)];
          var (more, ends) := Given(room - |now|, answers[1..], calls - 1);
          (now + more, ends)
  }

  /** All bytes of the answers. */
  function DataOf(answers: seq<Giving>): seq<Byte> {
    if answers == [] then []
    else (match answers[0] case Gives(data) => data case _ => []) + DataOf(answers[1..])
  }

  /** What is read is the beginning of what is given, nothing skipped, repeated or reordered. */
  lemma {:induction false} GivenIsPrefix(room: nat, answers: seq<Giving>, calls: nat)
    ensures Given(room, answers, calls).0 <= DataOf(answers)
    decreases calls
  {
    if room > 0 && calls > 0 && answers != [] && answers[0].Gives? && answers[0].data != [] {
      GivenIsPrefix(room - Least(|answers[0].data|, room), answers[1..], calls - 1);
      if |answers[0].data| >= room {
        assert Given(0, answers[1..], calls - 1).0 == [];
      }
    }
  }

  /** The local side ends only by an answer that says so: never because a call would block. */
  ghost predicate SomeTakeEnds(answers: seq<Taking>) {
    exists i :: 0 <= i < |answers| && (answers[i] == TakeFails || answers[i] == Takes(0))
  }

  ghost predicate SomeGiveEnds(answers: seq<Giving>) {
    exists i :: 0 <= i < |answers| && (answers[i] == GiveFails || answers[i] == Gives([]))
  }

  ghost predicate Ends(k: Socket) {
    SomeTakeEnds(k.payload) || SomeTakeEnds(k.fin) || SomeGiveEnds(k.given)
  }

  lemma FlushedAt(rem: nat, answers: seq<Taking>, i: nat)
    requires i < 8
    ensures Flushed(rem, answers[..0], 8 - i) == (0, false)
    ensures i < |answers| && 0 < rem ==>
              Flushed(rem, answers[i..], 8 - i)
              == match answers[i]
                 case TakesLater => (0, false)
                 case TakeFails => (0, true)
                 case Takes(n) =>
                   if n == 0 then (0, true)
                   else
                     var (more, ends) := Flushed(rem - Least(n, rem), answers[i + 1..], 7 - i);
                     (Least(n, rem) + more, ends)
  {
    if i < |answers| {
      assert answers[i..][1..] == answers[i + 1..];
    }
  }

  lemma GivenAt(room: nat, answers: seq<Giving>, i: nat)
    requires i < 8
    ensures Given(room, answers[..0], 8 - i) == ([], false)
    ensures i < |answers| && 0 < room ==>
              Given(room, answers[i..], 8 - i)
              == match answers[i]
                 case GivesLater => ([], false)
                 case GiveFails => ([], true)
                 case Gives(data) =>
                   if data == [] then ([], true)
                   else
                     var now := data[..Least(|data|, room)];
                     var (more, ends) := Given(room - |now|, answers[i + 1..], 7 - i);
                     (now + more, ends)
  {
    if i < |answers| {
      assert answers[i..][1..] == answers[i + 1..];
    }
  }

  lemma NoneLeft(rem: nat, takes: seq<Taking>, gives: seq<Giving>, calls: nat)
    requires rem == 0 || calls == 0
    ensures Flushed(rem, takes, calls) == (0, false) && Given(rem, gives, calls) == ([], false)
  {
  }

  lemma {:induction false} FlushedEnds(rem: nat, answers: seq<Taking>, calls: nat)
    ensures Flushed(rem, answers, calls).1 ==> SomeTakeEnds(answers)
    decreases calls
  {
    if Flushed(rem, answers, calls).1 && answers[0] != TakeFails && answers[0] != Takes(0) {
      FlushedEnds(rem - Least(answers[0].n, rem), answers[1..], calls - 1);
      var i :| 0 <= i < |answers[1..]| && (answers[1..][i] == TakeFails || answers[1..][i] == Takes(0));
      assert answers[i + 1] == answers[1..][i];
    }
  }

  lemma {:induction false} GivenEnds(room: nat, answers: seq<Giving>, calls: nat)
    ensures Given(room, answers, calls).1 ==> SomeGiveEnds(answers)
    decreases calls
  {
    if Given(room, answers, calls).1 && answers[0] != GiveFails && answers[0] != Gives([]) {
      GivenEnds(room - Least(|answers[0].data|, room), answers[1..], calls - 1);
      var i :| 0 <= i < |answers[1..]| && (answers[1..][i] == GiveFails || answers[1..][i] == Gives([]));
      assert answers[i + 1] == answers[1..][i];
    }
  }

  // ---------- A connection ----------

  /** diag_tcp_conn_t */
  class Conn {
    const irs: nat
    const iss: nat
    var active: bool
    var localConnected: bool
    var localEof: bool
    var rcvNxt: nat
    var una: nat
    var peerWnd: nat
    var synAcked: bool
    var finSent: bool
    var finAcked: bool
    var peerFin: bool
    var rxOff: nat
    var rxLen: nat
    const rxBuf: array<Byte>
    var txSent: nat
    var txLen: nat
    const txBuf: array<Byte>

    /** Bytes accepted from the peer, and those of them handed to the local socket. */
    ghost var accepted: seq<Byte>
    ghost var delivered: seq<Byte>
    /** Bytes read from the local socket, and how many of them the peer has acknowledged. */
    ghost var local: seq<Byte>
    ghost var acked: nat
    /** The first of them that has not gone out. */
    ghost var high: nat
    /** Segments sent. */
    ghost var log: seq<Out>

    ghost predicate Buffers() {
      rxBuf.Length == RX_CAP && txBuf.Length == TX_CAP && rxBuf != txBuf && irs < TWO32 && iss < TWO32
    }

    ghost function Position(): nat
      reads this`accepted, this`peerFin
    {
      |accepted| + if peerFin then 1 else 0
    }

    /** Receiving: everything accepted is delivered or still buffered, in order, and rcv_nxt counts it. */
    ghost predicate Receiving()
      reads this`rxOff, this`rxLen, this`delivered, this`accepted, this`peerFin, this`rcvNxt, rxBuf
    {
      && Buffers()
      && rxOff <= rxLen <= RX_CAP
      && delivered + rxBuf[rxOff..rxLen] == accepted
      && rcvNxt == Wrap(irs + 1 + Position())
    }

    /** Sending: the buffer is what is read and not acknowledged, and tx_una_seq counts what is. */
    ghost predicate Sending()
      reads this`txSent, this`txLen, this`acked, this`local, this`una, this`finAcked, this`finSent, this`localEof, txBuf
    {
      && Buffers()
      && txSent <= txLen <= TX_CAP
      && acked + txLen == |local| && txBuf[..txLen] == local[acked..]
      && una == Wrap(iss + 1 + acked + if finAcked then 1 else 0)
      && (finSent ==> localEof && txSent == txLen && !finAcked)
      && (finAcked ==> localEof && txLen == 0)
    }

    /** Every segment sent so far was true when sent, and still is. */
    ghost predicate Honest()
      reads this`log, this`local, this`localEof, this`accepted, this`peerFin
    {
      HonestLog(log, iss, local, localEof, irs, Position())
    }

    /** What has gone out. */
    ghost predicate Sent()
      reads this`log, this`acked, this`txSent, this`high
    {
      SentUpTo(log, high, acked, txSent)
    }

    ghost predicate Valid()
      reads this, rxBuf, txBuf
    {
      Receiving() && Sending() && Honest() && Sent()
    }

    ghost function Now(): Snapshot
      reads this
    {
      Snapshot(accepted, peerFin, active, localConnected, localEof, synAcked, finAcked, acked, local, txSent, peerWnd,
               log)
    }

    /** `high` says whether all acknowledged bytes have gone out. */
    lemma Marked()
      requires Sent()
      ensures acked <= high <==> AllOut(log, acked)
    {
      AllOutExactly(log, high, acked);
    }

    lemma Tallied()
      requires Sent()
      ensures Now().Tallies()
    {
    }

    /** The numbers a snapshot leaves out. */
    lemma Numbers()
      requires Receiving() && Sending()
      ensures rcvNxt == Wrap(irs + 1 + Now().Position()) && una == Now().Una(iss) && txLen == Now().TxLen()
    {
    }

    /** Acknowledgment `ackno` covers bytes that have been read but have not gone out. */
    ghost predicate Passes(ackno: nat)
      reads this`synAcked, this`acked, this`una, this`txLen, this`high
    {
      acked + (if AckedSyn(ackno) then Newly(Diff(ackno, una), txLen) else 0) > high
    }

    ghost predicate AckedSyn(ackno: nat)
      reads this`synAcked
    {
      synAcked || Diff(ackno, Wrap(iss + 1)) >= 0
    }

    /** A SYN has come: rcv_nxt is past it, and it is answered. */
    constructor (irs: nat, iss: nat, connected: bool, window: nat)
      requires irs < TWO32 && iss < TWO32
      ensures Valid() && active && !peerFin && accepted == [] && delivered == [] && local == []
                && this.irs == irs && this.iss == iss
      ensures !synAcked && peerWnd == (if window > 1460 then window else 16384) && acked == 0 && high == 0
      ensures localConnected == connected && txSent == 0
      ensures !localEof && !finAcked && txLen == 0 && una == Wrap(iss + 1)
      ensures log == [Out(SynAck, iss, Wrap(irs + 1), [], 0)]
      ensures fresh(rxBuf) && fresh(txBuf)
    {
      this.irs, this.iss := irs, iss;
      active, localConnected, localEof := true, connected, false;
      rcvNxt, una, peerWnd := Wrap(irs + 1), Wrap(iss + 1), if window > 1460 then window else 16384;
      synAcked, finSent, finAcked, peerFin := false, false, false, false;
      rxOff, rxLen, txSent, txLen := 0, 0, 0, 0;
      rxBuf := new Byte[RX_CAP];
      txBuf := new Byte[TX_CAP];
      accepted, delivered, local, acked, high := [], [], [], 0, 0;
      log := [Out(SynAck, iss, Wrap(irs + 1), [], 0)];
      new;
      assert AcksUpTo(log[0], irs, 0);
      assert AcksAccepted(log[0], irs, 0);
      assert rxBuf[0..0] == [] && txBuf[..0] == [];
    }

    /** diag_tcp_send_segment: the acknowledgment number is always rcv_nxt. */
    method Emit(kind: Kind, seqno: nat, payload: seq<Byte>, ghost at: nat)
      requires Receiving() && Honest() && SaysTheTruth(Out(kind, seqno, rcvNxt, payload, at), iss, local, localEof)
      modifies this`log
      ensures Honest() && log == old(log) + [Out(kind, seqno, rcvNxt, payload, at)]
      ensures old(Sent()) && kind != Data ==> Sent()
    {
      hide HonestLog, SentUpTo, SaysTheTruth, AcksUpTo;
      ghost var o := Out(kind, seqno, rcvNxt, payload, at);
      HonestSnoc(log, o, iss, local, localEof, irs, Position());
      if Sent() && kind != Data {
        SentOther(log, o, high, acked, txSent);
      }
      log := log + [o];
    }

    /** send() took `n` bytes. */
    method Deliver(n: nat)
      requires Receiving() && rxOff + n <= rxLen
      modifies this`rxOff, this`delivered
      ensures Receiving() && rxOff == old(rxOff) + n && old(delivered) <= delivered
    {
      hide Wrap;
      assert rxBuf[rxOff..rxLen] == rxBuf[rxOff..rxOff + n] + rxBuf[rxOff + n..rxLen];
      delivered := delivered + rxBuf[rxOff..rxOff + n];
      rxOff := rxOff + n;
    }

    /** diag_tcp_flush_rx: what the socket takes is the next bytes, nothing lost, repeated or reordered. */
    method FlushRx(answers: seq<Taking>)
      requires Valid()
      modifies this`rxOff, this`rxLen, this`localEof, this`delivered
      ensures Valid() && |old(delivered)| <= |accepted|
      ensures var (n, ends) :=
                if localConnected then Flushed(|accepted| - |old(delivered)|, answers, 8) else (0, false);
              && delivered == accepted[..|old(delivered)| + n]
              && (localEof <==> old(localEof) || ends)
      ensures old(delivered) <= delivered && (localEof ==> old(localEof) || SomeTakeEnds(answers))
    {
      hide HonestLog, Wrap, SentUpTo, Flushed, SomeTakeEnds, Sending, Sent, Honest;
      Undelivered();
      if !localConnected {
        return;
      }
      FlushedEnds(rxLen - rxOff, answers, 8);
      FlushSome(answers);
      Undelivered();
      if rxOff == rxLen {
        rxOff, rxLen := 0, 0;
        assert rxBuf[0..0] == [];
      }
    }

    lemma Undelivered()
      requires Receiving()
      ensures |accepted| == |delivered| + (rxLen - rxOff) && delivered == accepted[..|delivered|]
    {
    }

    /** The loop of it. */
    method FlushSome(answers: seq<Taking>)
      requires Valid() && localConnected
      modifies this`rxOff, this`localEof, this`delivered
      ensures Valid() && old(rxOff) <= rxLen
      ensures var (n, ends) := Flushed(rxLen - old(rxOff), answers, 8);
              && rxOff == old(rxOff) + n && (localEof <==> old(localEof) || ends)
    {
      hide HonestLog, Wrap, SentUpTo, Sending, Sent, Honest, Flushed;
      var loops: nat := 0;
      ghost var whole := Flushed(rxLen - rxOff, answers, 8);
      assert answers[0..] == answers;
      while rxOff < rxLen && loops < 8
        invariant Valid() && old(rxOff) <= rxOff && loops <= 8 && loops <= |answers| && localEof == old(localEof)
        invariant var (n, ends) := Flushed(rxLen - rxOff, answers[loops..], 8 - loops);
                  whole == (rxOff - old(rxOff) + n, ends)
        decreases 8 - loops
      {
        FlushedAt(rxLen - rxOff, answers, loops);
        if loops == |answers| {
          assert answers[loops..] == answers[..0];
          return;
        }
        match answers[loops] {
          case TakesLater =>
            return;
          case TakeFails =>
            EndLocal();
            return;
          case Takes(n) =>
            if n == 0 {
              EndLocal();
              return;
            }
            Deliver(Least(n, rxLen - rxOff));
        }
        loops := loops + 1;
      }
      NoneLeft(rxLen - rxOff, answers[loops..], [], 8 - loops);
    }

    /** diag_tcp_read_local: whatever the socket gives goes to the end of the buffer, until it ends. */
    method ReadLocal(answers: seq<Giving>)
      requires Valid()
      modifies this`localEof, this`txLen, this`local, txBuf
      ensures Valid() && old(txLen) <= TX_CAP
      ensures var (data, ends) :=
                if localConnected && !old(localEof) then Given(TX_CAP - old(txLen), answers, 8) else ([], false);
              && local == old(local) + data && (localEof <==> old(localEof) || ends)
      ensures old(local) <= local && (localEof ==> old(localEof) || SomeGiveEnds(answers))
      ensures txSent == old(txSent) && finSent == old(finSent)
    {
      hide HonestLog, SentUpTo, Honest, Receiving, Sent, Given, SomeGiveEnds;
      if !localConnected || localEof {
        return;
      }
      GivenEnds(TX_CAP - txLen, answers, 8);
      ReadSome(answers);
    }

    /** The loop of it. */
    method ReadSome(answers: seq<Giving>)
      requires Valid() && !localEof && txLen <= TX_CAP
      modifies this`localEof, this`txLen, this`local, txBuf
      ensures Valid()
      ensures var (data, ends) := Given(TX_CAP - old(txLen), answers, 8);
              local == old(local) + data && localEof == ends
    {
      hide HonestLog, SentUpTo, Honest, Receiving, Sending, Sent, Given;
      var loops: nat := 0;
      ghost var whole := Given(TX_CAP - txLen, answers, 8);
      ghost var got: seq<Byte> := [];
      assert answers[0..] == answers;
      while txLen < TX_CAP && loops < 8
        invariant Valid() && !localEof && loops <= 8 && loops <= |answers| && txLen <= TX_CAP
        invariant local == old(local) + got
        invariant var (data, ends) := Given(TX_CAP - txLen, answers[loops..], 8 - loops);
                  whole.0 == got + data && whole.1 == ends
        decreases 8 - loops
      {
        GivenAt(TX_CAP - txLen, answers, loops);
        if loops == |answers| {
          assert answers[loops..] == answers[..0];
          return;
        }
        match answers[loops] {
          case GivesLater =>
            return;
          case GiveFails =>
            EndLocal();
            return;
          case Gives(data) =>
            if data == [] {
              EndLocal();
              return;
            }
            var now := data[..Least(|data|, TX_CAP - txLen)];
            AppendTx(now);
            got := got + now;
        }
        loops := loops + 1;
      }
      NoneLeft(TX_CAP - txLen, [], answers[loops..], 8 - loops);
    }

    method EndLocal()
      requires Valid()
      modifies this`localEof
      ensures Valid() && localEof
    {
      hide HonestLog, SentUpTo;
      HonestEnd(log, iss, local, localEof, irs, Position());
      localEof := true;
    }

    /** recv into the free end of tx_buf. */
    method AppendTx(data: seq<Byte>)
      requires Valid() && !localEof && txLen + |data| <= TX_CAP
      modifies this`txLen, this`local, txBuf
      ensures Valid() && local == old(local) + data && txLen == old(txLen) + |data|
    {
      hide HonestLog, SentUpTo;
      HonestMoreLocal(log, iss, local, data, irs, Position());
      ghost var had := txBuf[..txLen];
      forall k | 0 <= k < |data| {
        txBuf[txLen + k] := data[k];
      }
      txLen := txLen + |data|;
      local := local + data;
      assert txBuf[..txLen] == had + data;
    }

    /** How far ahead of the acknowledged bytes sending may run. */
    function MaxInflight(): nat
      reads this`peerWnd
    {
      Inflight(peerWnd)
    }

    /**
      diag_tcp_pump_tx, the data part: the next bytes of the buffer, each once and in order, until the
      buffer, the peer's window or the number of segments is used up.
      */
    method PumpData(maxSegments: nat)
      requires Valid() && synAcked
      modifies this`txSent, this`log, this`high
      ensures Valid() && old(txSent) <= txSent && old(log) <= log
      ensures txSent != old(txSent) ==> |log| > |old(log)|
      ensures Carried(log) == old(Carried(log)) + txBuf[old(txSent)..txSent]
      ensures txSent == txLen || txSent >= MaxInflight() || (maxSegments > 0 && |log| == |old(log)| + maxSegments)
      ensures txSent > old(txSent) ==> txSent < MaxInflight() + MSS
      ensures maxSegments > 0 ==> DataCount(log) <= DataCount(old(log)) + maxSegments
      ensures old(high) <= high && (acked <= high <==> acked <= old(high))
      ensures SendsFrom(old(log), log, acked, MaxInflight())
    {
      hide Receiving, Sending, Sent, Honest, HonestLog, Wrap, Carried, SentUpTo, DataCount, SendsFrom;
      TxBounds();
      NoneSent(log, acked, MaxInflight());
      assert txBuf[txSent..txSent] == [];
      var sentSegs := 0;
      var maxInflight := if peerWnd < INFLIGHT then peerWnd else INFLIGHT;
      if maxInflight < MSS {
        maxInflight := MSS;
      }
      while txSent < txLen && txSent < maxInflight
        invariant Valid() && old(txSent) <= txSent <= txLen <= txBuf.Length && old(log) <= log
        invariant txSent != old(txSent) ==> |log| > |old(log)|
        invariant Carried(log) == old(Carried(log)) + txBuf[old(txSent)..txSent]
        invariant |log| == |old(log)| + sentSegs && (maxSegments > 0 ==> sentSegs <= maxSegments)
        invariant old(high) <= high && (acked <= high <==> acked <= old(high))
        invariant SendsFrom(old(log), log, acked, MaxInflight())
        invariant txSent > old(txSent) ==> txSent < MaxInflight() + MSS
        invariant DataCount(log) == DataCount(old(log)) + sentSegs
        decreases txLen - txSent
      {
        if maxSegments > 0 && sentSegs >= maxSegments {
          break;
        }
        var rem := txLen - txSent;
        var chunk := if rem > MSS then MSS else rem;
        ghost var mid, sofar := txSent, log;
        SendChunk(chunk);
        OneData(old(log), sofar, log[|sofar|], acked, MaxInflight());
        SliceJoin(txBuf[..], old(txSent), mid, txSent);
        sentSegs := sentSegs + 1;
      }
    }

    lemma TxBounds()
      requires Sending()
      ensures txSent <= txLen <= TX_CAP == txBuf.Length
    {
    }

    lemma RxBounds()
      requires Receiving()
      ensures rxOff <= rxLen <= RX_CAP
    {
    }

    lemma NextChunk(chunk: nat)
      requires Sending() && 0 < chunk <= MSS && txSent + chunk <= txLen && !finAcked
      ensures Carries(Out(Data, Wrap(una + txSent), rcvNxt, txBuf[txSent..txSent + chunk], acked + txSent), iss, local)
    {
      hide Wrap;
      var held, part := txBuf[..txLen], txBuf[txSent..txSent + chunk];
      var inner := held[txSent..txSent + chunk];
      forall i | 0 <= i < chunk ensures part[i] == inner[i] {
        assert part[i] == txBuf[txSent + i] == held[txSent + i];
      }
      assert part == inner;
      TailSlice(local, acked, txSent, chunk);
      WrapAdd(iss + 1 + acked, txSent);
    }

    method SendChunk(chunk: nat)
      requires Valid() && 0 < chunk <= MSS && txSent + chunk <= txLen
      modifies this`txSent, this`log, this`high
      ensures Valid() && txSent == old(txSent) + chunk && old(log) <= log && |log| == |old(log)| + 1
      ensures log == old(log) + [log[|old(log)|]]
      ensures log[|old(log)|].kind == Data && log[|old(log)|].at == acked + old(txSent)
      ensures DataCount(log) == DataCount(old(log)) + 1
      ensures old(high) <= high && (acked <= high <==> acked <= old(high))
      ensures Carried(log) == old(Carried(log)) + txBuf[old(txSent)..txSent]
    {
      hide DataCount, Honest, Receiving, HonestLog, Carried, SentUpTo, Carries, Wrap;
      var payload := txBuf[txSent..txSent + chunk];
      var seqno := Wrap(una + txSent);
      ghost var off := acked + txSent;
      NextChunk(chunk);
      Emit(Data, seqno, payload, off);
      ghost var o := Out(Data, seqno, rcvNxt, payload, off);
      CarriedSnoc(old(log), o);
      DataCountSnoc(old(log), o);
      SentNext(old(log), o, high, acked, txSent);
      high := Reach(high, off, chunk);
      txSent := txSent + chunk;
    }

    /** Nothing more may be sent now: the buffer, the window or the `max` segments of one go are used up. */
    ghost predicate Pumped(segments: int, max: nat)
      reads this`txSent, this`txLen, this`peerWnd
    {
      txSent == txLen || txSent >= MaxInflight() || segments >= max
    }

    /** diag_tcp_pump_tx */
    method PumpTx(maxSegments: nat)
      requires Valid()
      modifies this`txSent, this`log, this`finSent, this`high
      ensures Valid() && old(txSent) <= txSent && old(log) <= log
      ensures txSent != old(txSent) || finSent != old(finSent) ==> |log| > |old(log)|
      ensures !synAcked ==> log == old(log) && txSent == old(txSent) && finSent == old(finSent)
      ensures Carried(log) == old(Carried(log)) + txBuf[old(txSent)..txSent]
      ensures synAcked ==>
                && (txSent == txLen || txSent >= MaxInflight()
                    || (maxSegments > 0 && |log| == |old(log)| + maxSegments))
                && (maxSegments > 0 ==> Pumped(|log| - |old(log)|, maxSegments))
                && (localEof && txSent == txLen && !finAcked ==> finSent)
      ensures txSent > old(txSent) ==> txSent < MaxInflight() + MSS
      ensures maxSegments > 0 ==> DataCount(log) <= DataCount(old(log)) + maxSegments
      ensures old(high) <= high && (acked <= high <==> acked <= old(high))
      ensures SendsFrom(old(log), log, acked, MaxInflight())
    {
      hide Receiving, Sent, Honest, HonestLog, Wrap, SentUpTo, Carried;
      if !synAcked {
        return;
      }
      PumpData(maxSegments);
      if localEof && txSent == txLen && !finSent && !finAcked {
        SendFin();
      }
    }

    method SendFin()
      requires Valid() && localEof && txSent == txLen && !finSent && !finAcked
      modifies this`log, this`finSent
      ensures Valid() && finSent && log == old(log) + [Out(Fin, Wrap(iss + 1 + |local|), rcvNxt, [], 0)]
      ensures Carried(log) == old(Carried(log)) && DataCount(log) == DataCount(old(log))
    {
      hide HonestLog, SentUpTo, Carried;
      WrapAdd(iss + 1 + acked, txSent);
      Emit(Fin, Wrap(una + txSent), [], 0);
      CarriedSnoc(old(log), Out(Fin, Wrap(una + txSent), rcvNxt, [], 0));
      DataCountSnoc(old(log), Out(Fin, Wrap(una + txSent), rcvNxt, [], 0));
      finSent := true;
    }

    /** The acknowledgment part of diag_handle_tcp_packet. */
    method ProcessAck(ackno: nat)
      requires Valid() && ackno < TWO32
      modifies this`synAcked, this`txLen, this`una, this`txSent, this`finAcked, this`finSent, this`acked, txBuf
      ensures Valid() && (synAcked <==> old(synAcked) || Diff(ackno, Wrap(iss + 1)) >= 0)
      ensures acked == old(acked) + if synAcked then Newly(Diff(ackno, old(una)), old(txLen)) else 0
      ensures acked <= high <==> !old(Passes(ackno))
      ensures finAcked <==> old(finAcked) || (synAcked && old(finSent) && ackno == Wrap(iss + 1 + |local| + 1))
    {
      hide Receiving, Sending, Sent, Honest, HonestLog, Wrap, Diff, SentUpTo;
      if !synAcked {
        if Diff(ackno, Wrap(iss + 1)) >= 0 {
          synAcked := true;
        }
      }
      if synAcked {
        AckData(ackno);
      }
    }

    method AckData(ackno: nat)
      requires Valid() && ackno < TWO32
      modifies this`txLen, this`una, this`txSent, this`finAcked, this`finSent, this`acked, txBuf
      ensures Valid() && acked == old(acked) + Newly(Diff(ackno, old(una)), old(txLen))
      ensures finAcked <==> old(finAcked) || (old(finSent) && ackno == Wrap(iss + 1 + |local| + 1))
    {
      hide Receiving, Sent, Honest, HonestLog, Wrap, Diff, SentUpTo;
      var n := Diff(ackno, una);
      if finSent && ackno == Wrap(iss + 1 + |local| + 1) {
        FinAckAhead(iss, acked, txLen);
      }
      if n <= 0 {
        return;
      }
      var drop := if n <= txLen then n else txLen;
      ghost var before := una;
      ghost var more := txLen;
      WrapSmall(una);
      if drop > 0 {
        DropTx(drop);
      }
      if finSent && ackno == Wrap(una + 1) {
        FinIsLast(ackno, before, una, drop, more);
        TakeFinAck();
        assert una == ackno;
      }
    }

    /** The peer has acknowledged everything, FIN included. */
    method TakeFinAck()
      requires Valid() && finSent && txLen == 0
      modifies this`una, this`finAcked, this`finSent
      ensures Valid() && finAcked && una == Wrap(old(una) + 1)
    {
      hide HonestLog, SentUpTo;
      WrapAdd(iss + 1 + acked, 1);
      finAcked := true;
      finSent := false;
      una := Wrap(una + 1);
    }

    /** The memmove to the front of tx_buf. */
    method MoveTx(drop: nat)
      requires drop <= txLen <= txBuf.Length
      modifies txBuf
      ensures txBuf[..txLen - drop] == old(txBuf[..txLen])[drop..]
    {
      forall k | 0 <= k < txLen - drop {
        txBuf[k] := txBuf[drop + k];
      }
    }

    /** Acknowledged bytes leave the buffer. */
    method DropTx(drop: nat)
      requires Valid() && 0 < drop <= txLen
      modifies this`txLen, this`una, this`txSent, this`acked, txBuf
      ensures Valid() && acked == old(acked) + drop && una == Wrap(old(una) + drop) && txLen == old(txLen) - drop
    {
      hide Receiving, Honest, HonestLog, FirstUnsent, NoneBeyond, Wrap;
      MoveTx(drop);
      txLen := txLen - drop;
      TailTail(local, acked, drop);
      WrapAdd(iss + 1 + acked, drop);
      una := Wrap(una + drop);
      acked := acked + drop;
      txSent := if txSent > drop then txSent - drop else 0;
    }

    /** Makes room at the front of rx_buf. */
    method CompactRx()
      requires Valid()
      modifies this`rxOff, this`rxLen, rxBuf
      ensures Valid() && rxLen == Compacted(old(rxOff), old(rxLen))
    {
      hide HonestLog, Wrap, SentUpTo;
      if rxOff > 0 && rxOff == rxLen {
        rxOff, rxLen := 0, 0;
        assert rxBuf[0..0] == [];
      } else if rxOff >= 4096 {
        ghost var held := rxBuf[rxOff..rxLen];
        forall k | 0 <= k < rxLen - rxOff {
          rxBuf[k] := rxBuf[rxOff + k];
        }
        rxLen := rxLen - rxOff;
        rxOff := 0;
        assert rxBuf[..rxLen] == held;
        assert rxBuf[0..rxLen] == rxBuf[..rxLen];
      }
    }

    /** New bytes go behind those buffered, and rcv_nxt moves past them. */
    method AppendRx(bytes: seq<Byte>)
      requires Valid() && rxLen + |bytes| <= RX_CAP
      modifies this`rxLen, this`rcvNxt, this`accepted, rxBuf
      ensures Valid() && accepted == old(accepted) + bytes
    {
      hide Sending, Sent, HonestLog, SentUpTo, Wrap;
      HonestMoreAccepted(log, iss, local, localEof, irs, Position(), Position() + |bytes|);
      ghost var held := rxBuf[rxOff..rxLen];
      CopyRx(bytes);
      WrapAdd(irs + 1 + Position(), |bytes|);
      rxLen := rxLen + |bytes|;
      rcvNxt := Wrap(rcvNxt + |bytes|);
      assert delivered + (held + bytes) == (delivered + held) + bytes;
      accepted := accepted + bytes;
    }

    /** The memcpy behind the bytes buffered. */
    method CopyRx(bytes: seq<Byte>)
      requires rxOff <= rxLen && rxLen + |bytes| <= rxBuf.Length
      modifies rxBuf
      ensures rxBuf[rxOff..rxLen + |bytes|] == old(rxBuf[rxOff..rxLen]) + bytes
    {
      forall k | 0 <= k < |bytes| {
        rxBuf[rxLen + k] := bytes[k];
      }
      assert rxBuf[rxOff..rxLen] == old(rxBuf[rxOff..rxLen]) && rxBuf[rxLen..rxLen + |bytes|] == bytes;
      assert rxBuf[rxOff..rxLen + |bytes|] == rxBuf[rxOff..rxLen] + rxBuf[rxLen..rxLen + |bytes|];
    }

    /** The payload part of diag_handle_tcp_packet: only what is new, and only what fits. */
    method ProcessPayload(s: Segment, k: Socket) returns (ghost room: nat)
      requires Valid()
      modifies this`rxOff, this`rxLen, this`rcvNxt, this`accepted, this`localEof, this`delivered, rxBuf
      ensures localEof ==> old(localEof) || Ends(k)
      ensures Valid() && (old(localEof) ==> localEof) && old(delivered) <= delivered
      ensures old(rxOff) <= old(rxLen) <= RX_CAP && room == RX_CAP - Compacted(old(rxOff), old(rxLen))
      ensures Adds(old(accepted), old(rcvNxt), s, room, accepted)
    {
      hide Flushed, Given, SomeTakeEnds, SomeGiveEnds, Receiving, Sending, Sent, Honest, HonestLog, Wrap, Diff,
        SentUpTo, Fresh, Ends;
      RxBounds();
      TakeEnds(k);
      room := RX_CAP - Compacted(rxOff, rxLen);
      FreshIs(Diff(rcvNxt, s.seqno), s.payload, room);
      var offset := Diff(rcvNxt, s.seqno);
      if 0 <= offset < |s.payload| {
        CompactRx();
        RxBounds();
        var newLen := |s.payload| - offset;
        var avail := RX_CAP - rxLen;
        var take := if newLen <= avail then newLen else avail;
        if take > 0 {
          AppendRx(s.payload[offset..offset + take]);
          FlushRx(k.payload);
        }
      }
    }

    /** The FIN part: taken once, and only where the next byte would be. */
    method ProcessFin(s: Segment, k: Socket) returns (taken: bool)
      requires Valid()
      modifies this`rxOff, this`rxLen, this`rcvNxt, this`peerFin, this`localEof, this`delivered
      ensures localEof ==> old(localEof) || Ends(k)
      ensures Valid() && (old(localEof) ==> localEof) && old(delivered) <= delivered
      ensures taken <==> s.fin && !old(peerFin) && Wrap(s.seqno + |s.payload|) == Wrap(irs + 1 + |accepted|)
      ensures peerFin <==> old(peerFin) || taken
    {
      hide Flushed, Given, SomeTakeEnds, SomeGiveEnds, HonestLog, SentUpTo;
      taken := s.fin && Wrap(s.seqno + |s.payload|) == rcvNxt && !peerFin;
      if taken {
        HonestMoreAccepted(log, iss, local, localEof, irs, Position(), Position() + 1);
        WrapAdd(irs + 1 + Position(), 1);
        rcvNxt := Wrap(rcvNxt + 1);
        peerFin := true;
        FlushRx(k.fin);
      }
    }

    /** What a segment that neither opens nor resets the connection changes, besides the bytes accepted. */
    twostate predicate Took(s: Segment)
      reads this
    {
      && (peerFin <==> old(peerFin) || (s.fin && Wrap(s.seqno + |s.payload|) == Wrap(irs + 1 + |accepted|)))
      && (synAcked <==> old(synAcked) || (s.ack && Diff(s.ackno, Wrap(iss + 1)) >= 0))
      && acked == old(acked) + (if s.ack && synAcked then Newly(Diff(s.ackno, old(una)), old(txLen)) else 0)
      && (old(finAcked) ==> finAcked)
      && (finAcked ==> old(finAcked) || (s.ack && synAcked && s.ackno == Wrap(iss + 1 + |old(local)| + 1)))
      && old(high) <= high && (acked <= high <==> acked <= old(high))
      && SendsFrom(old(log), log, acked, MaxInflight()) && (synAcked ==> Pumped(|log| - |old(log)|, 8))
      && DataCount(log) <= DataCount(old(log)) + 8
      && localConnected == old(localConnected)
      && (active <==> !(finAcked && peerFin))
    }

    /** diag_handle_tcp_packet, for a connection that exists. */
    method HandlePacket(s: Segment, k: Socket) returns (ghost room: nat)
      requires Valid() && active && s.seqno < TWO32 && s.ackno < TWO32
      modifies this, rxBuf, txBuf
      ensures Valid() && old(delivered) <= delivered && old(local) <= local && old(acked) <= acked
      ensures room <= RX_CAP && Adds(old(accepted), old(rcvNxt), s, room, accepted)
      ensures localEof ==> old(localEof) || Ends(k)
      ensures Opens(s) ==> active == (!synAcked && s.seqno == irs)
      ensures Opens(s) ==> log == if active then old(log) + [Out(SynAck, iss, rcvNxt, [], 0)] else old(log)
      ensures !Opens(s) && s.rst ==> !active && log == old(log)
      ensures Opens(s) || s.rst ==>
                unchanged(this`accepted, this`peerFin, this`synAcked, this`finAcked, this`acked, this`local, this`high,
                          this`txSent, this`peerWnd, this`localConnected, this`localEof)
      ensures !Opens(s) && !s.rst ==> Took(s)
      ensures !Opens(s) && !s.rst ==> peerWnd == if s.window >= 1460 then s.window else 4096
      ensures !Opens(s) && !s.rst && (s.payload != [] || peerFin != old(peerFin)) ==> |log| > |old(log)|
      ensures acked <= high <==> if s.ack && !s.rst then !old(Passes(s.ackno)) else old(acked <= high)
    {
      hide Receiving, Sending, Sent, Honest, HonestLog, Wrap, Diff, Adds, SentUpTo;
      room := 0;
      if Opens(s) {
        if !synAcked && s.seqno == irs {
          Emit(SynAck, iss, [], 0);
        } else {
          active := false;
        }
        NothingAdded(accepted, rcvNxt, s);
        return;
      }
      if s.rst {
        active := false;
        NothingAdded(accepted, rcvNxt, s);
        return;
      }
      room := TakeSegment(s, k);
    }

    /** Window and acknowledgment of a segment. */
    method TakeAck(s: Segment)
      requires Valid() && s.ackno < TWO32
      modifies this`peerWnd, this`synAcked, this`txLen, this`una, this`txSent, this`finAcked, this`finSent,
                 this`acked, txBuf
      ensures Valid() && old(acked) <= acked
      ensures peerWnd == if s.window >= 1460 then s.window else 4096
      ensures synAcked <==> old(synAcked) || (s.ack && Diff(s.ackno, Wrap(iss + 1)) >= 0)
      ensures acked == old(acked) + if s.ack && synAcked then Newly(Diff(s.ackno, old(una)), old(txLen)) else 0
      ensures old(finAcked) ==> finAcked
      ensures finAcked ==> old(finAcked) || (s.ack && synAcked && s.ackno == Wrap(iss + 1 + |old(local)| + 1))
      ensures acked <= high <==> if s.ack then !old(Passes(s.ackno)) else old(acked <= high)
    {
      hide Receiving, Sending, Sent, Honest, HonestLog, Wrap, Diff, SentUpTo;
      peerWnd := if s.window >= 1460 then s.window else 4096;
      if s.ack {
        ProcessAck(s.ackno);
      }
    }

    /** A segment that neither opens nor resets the connection. */
    method TakeSegment(s: Segment, k: Socket) returns (ghost room: nat)
      requires Valid() && active && s.seqno < TWO32 && s.ackno < TWO32
      modifies this`peerWnd, this`synAcked, this`txLen, this`una, this`txSent, this`finAcked, this`finSent,
                 this`acked, txBuf
      modifies this`rxOff, this`rxLen, this`rcvNxt, this`accepted, this`peerFin, this`localEof, this`delivered, rxBuf
      modifies this`active, this`local, this`log, this`high
      ensures Valid() && old(delivered) <= delivered && old(local) <= local && old(acked) <= acked
      ensures room <= RX_CAP && Adds(old(accepted), old(rcvNxt), s, room, accepted)
      ensures localEof ==> old(localEof) || Ends(k)
      ensures Took(s)
      ensures peerWnd == if s.window >= 1460 then s.window else 4096
      ensures s.payload != [] || peerFin != old(peerFin) ==> |log| > |old(log)|
      ensures acked <= high <==> if s.ack then !old(Passes(s.ackno)) else old(acked <= high)
    {
      hide DataCount, SendsFrom, Flushed, Given, SomeTakeEnds, SomeGiveEnds, Receiving, Sending, Sent, Honest,
        HonestLog, Wrap, Diff, Adds, SentUpTo, Newly, AckedSyn, Passes;
      TakeAck(s);
      var sendAck;
      sendAck, room := Accept(s, k);
      Respond(sendAck, k);
    }

    /** Payload and FIN of a segment. */
    method Accept(s: Segment, k: Socket) returns (sendAck: bool, ghost room: nat)
      requires Valid()
      modifies this`rxOff, this`rxLen, this`rcvNxt, this`accepted, this`peerFin, this`localEof, this`delivered, rxBuf
      ensures Valid() && old(delivered) <= delivered
      ensures room <= RX_CAP && Adds(old(accepted), old(rcvNxt), s, room, accepted)
      ensures peerFin <==> old(peerFin) || (s.fin && Wrap(s.seqno + |s.payload|) == Wrap(irs + 1 + |accepted|))
      ensures localEof ==> old(localEof) || Ends(k)
      ensures sendAck <==> s.payload != [] || peerFin != old(peerFin)
    {
      hide Flushed, Given, SomeTakeEnds, SomeGiveEnds, Receiving, Sending, Sent, Honest, HonestLog, Wrap, Diff, Adds,
        SentUpTo;
      sendAck, room := false, 0;
      NothingAdded(accepted, rcvNxt, s);
      if |s.payload| > 0 {
        room := ProcessPayload(s, k);
        sendAck := true;
      }
      var taken := ProcessFin(s, k);
      sendAck := sendAck || taken;
    }

    /** The end of the handler: more local data, what may be sent, and an acknowledgment if nothing else carried one. */
    method Respond(sendAck: bool, k: Socket)
      requires Valid()
      modifies this`active, this`localEof, this`txLen, this`local, this`txSent, this`finSent, this`log, this`high, txBuf
      ensures Valid() && old(local) <= local
      ensures localEof ==> old(localEof) || Ends(k)
      ensures sendAck ==> |log| > |old(log)|
      ensures synAcked ==> Pumped(|log| - |old(log)|, 8)
      ensures DataCount(log) <= DataCount(old(log)) + 8 && (txSent > old(txSent) ==> txSent < MaxInflight() + MSS)
      ensures old(high) <= high && (acked <= high <==> acked <= old(high))
      ensures SendsFrom(old(log), log, acked, MaxInflight())
      ensures active <==> old(active) && !(finAcked && peerFin)
    {
      hide Flushed, Given, SomeTakeEnds, SomeGiveEnds, Receiving, Sending, Sent, Honest, HonestLog, Wrap, SentUpTo,
        Carried, MaxInflight, Pumped, SendsFrom, DataCount;
      ReadLocal(k.given);
      ghost var before := log;
      var prevSent, prevFin := txSent, finSent;
      PumpTx(8);
      ghost var pumped := log;
      if sendAck && txSent == prevSent && finSent == prevFin {
        SendAck();
        OneOther(before, pumped, log[|pumped|], acked, MaxInflight());
        MorePumped(|pumped| - |before|, |log| - |before|, 8);
      }
      if finAcked && peerFin {
        active := false;
      }
    }

    /** A segment that only acknowledges. */
    method SendAck()
      requires Valid()
      modifies this`log
      ensures Valid()
      ensures log == old(log) + [Out(PureAck, Wrap(una + txSent + if finSent then 1 else 0), rcvNxt, [], 0)]
    {
      hide HonestLog, Wrap, SentUpTo;
      Emit(PureAck, Wrap(una + txSent + if finSent then 1 else 0), [], 0);
    }

    lemma MorePumped(few: int, many: int, max: nat)
      requires few <= many
      ensures Pumped(few, max) ==> Pumped(many, max)
    {
    }

    /** The local connection failed: the peer is told. */
    method Abandon()
      requires Valid()
      modifies this`log, this`active
      ensures Valid() && !active
      ensures log == old(log) + [Out(Reset, if synAcked then una else Wrap(iss + 1), rcvNxt, [], 0)]
    {
      hide HonestLog, Wrap, SentUpTo;
      Emit(Reset, if synAcked then una else Wrap(iss + 1), [], 0);
      active := false;
    }

    /** diag_tcp_io_cb */
    method IoReady(writable: bool, readable: bool, connectFailed: bool, k: Socket)
      requires Valid() && active
      modifies this, rxBuf, txBuf
      ensures Valid() && accepted == old(accepted) && peerFin == old(peerFin)
      ensures old(delivered) <= delivered && old(local) <= local
      ensures unchanged(this`acked, this`synAcked, this`finAcked) && old(high) <= high
      ensures connectFailed && !old(localConnected) ==>
                !active && |log| == |old(log)| + 1 && log[|old(log)|].kind == Reset
      ensures !(connectFailed && !old(localConnected)) ==> localConnected && (active <==> !(finAcked && peerFin))
      ensures localEof ==> old(localEof) || Ends(k)
      ensures !readable && !(connectFailed && !old(localConnected)) ==> local == old(local)
      ensures !writable ==> delivered == old(delivered)
      ensures acked <= high <==> old(acked <= high)
      ensures SendsFrom(old(log), log, acked, MaxInflight()) && old(log) <= log && peerWnd == old(peerWnd)
      ensures connectFailed && !old(localConnected) ==>
                unchanged(this`local, this`localEof, this`txSent, this`localConnected)
      ensures !(connectFailed && !old(localConnected)) && synAcked ==> Pumped(|log| - |old(log)|, 8)
      ensures DataCount(log) <= DataCount(old(log)) + 8
    {
      hide Receiving, Sending, Sent, Honest, HonestLog, Wrap, Carried, MaxInflight, SentUpTo;
      if !localConnected {
        if connectFailed {
          Abandon();
          return;
        }
        localConnected := true;
      }
      Serve(writable, readable, k);
    }

    /** The socket is there: what it takes and gives, and what may be sent. */
    method Serve(writable: bool, readable: bool, k: Socket)
      requires Valid() && active
      modifies this`rxOff, this`rxLen, this`localEof, this`delivered, this`txLen, this`local, txBuf
      modifies this`txSent, this`log, this`finSent, this`high, this`active
      ensures Valid() && old(delivered) <= delivered && old(local) <= local
      ensures active <==> !(finAcked && peerFin)
      ensures localEof ==> old(localEof) || Ends(k)
      ensures !readable ==> local == old(local)
      ensures !writable ==> delivered == old(delivered)
      ensures synAcked ==> Pumped(|log| - |old(log)|, 8)
      ensures DataCount(log) <= DataCount(old(log)) + 8 && (txSent > old(txSent) ==> txSent < MaxInflight() + MSS)
      ensures old(high) <= high && (acked <= high <==> acked <= old(high))
      ensures SendsFrom(old(log), log, acked, MaxInflight())
    {
      hide DataCount, SendsFrom, Flushed, Given, SomeTakeEnds, SomeGiveEnds, Receiving, Sending, Sent, Honest,
        HonestLog, Wrap, Carried, MaxInflight, SentUpTo;
      if writable {
        FlushRx(k.payload);
      }
      if readable {
        ReadLocal(k.given);
      }
      PumpTx(8);
      if finAcked && peerFin {
        active := false;
      }
    }

    /** Everything not acknowledged counts as not sent. */
    method Rewind()
      requires Valid()
      modifies this`txSent, this`finSent
      ensures Valid() && txSent == 0 && !finSent
    {
      hide Receiving, Honest, HonestLog, Wrap, FirstUnsent, NoneBeyond;
      txSent := 0;
      finSent := false;
    }

    /**
      The part of diag_tcp_timer_cb for one connection: retransmission starts over from the first
      unacknowledged byte.
      */
    method Timer(givenUp: bool, elapsed: bool)
      requires Valid() && active
      modifies this
      ensures Valid() && accepted == old(accepted) && peerFin == old(peerFin)
      ensures delivered == old(delivered) && local == old(local) && acked == old(acked)
      ensures unchanged(this`synAcked, this`finAcked, this`localEof) && old(high) <= high
      ensures active <==> !givenUp
      ensures acked <= high <==> old(acked <= high)
      ensures givenUp || !elapsed ==> unchanged(this`log, this`txSent, this`finSent)
      ensures SendsFrom(old(log), log, acked, MaxInflight()) && unchanged(this`peerWnd, this`localConnected)
      ensures !givenUp && elapsed && synAcked && (txLen > 0 || old(finSent)) ==> Pumped(|log| - |old(log)|, 4)
      ensures DataCount(log) <= DataCount(old(log)) + 4
      ensures !givenUp && elapsed && !synAcked ==> log == old(log) + [Out(SynAck, iss, rcvNxt, [], 0)]
      ensures !givenUp && elapsed && synAcked && (txLen > 0 || old(finSent)) ==>
                |log| > |old(log)| && Carried(log) == old(Carried(log)) + txBuf[..txSent]
    {
      hide DataCount, Receiving, Honest, HonestLog, Wrap, Carried, SentUpTo, Sent;
      if givenUp {
        active := false;
        return;
      }
      if !synAcked {
        if elapsed {
          Emit(SynAck, iss, [], 0);
          DataCountSnoc(old(log), Out(SynAck, iss, rcvNxt, [], 0));
        }
      } else if (txLen > 0 || (finSent && !finAcked)) && elapsed {
        Rewind();
        PumpTx(4);
        assert txBuf[0..txSent] == txBuf[..txSent];
      }
    }
  }

  // ---------- What a segment may add ----------

  /** rx_len after a buffer that has been emptied, or drained far enough, is moved down. */
  function Compacted(rxOff: nat, rxLen: nat): nat
    requires rxOff <= rxLen
  {
    if rxOff > 0 && rxOff == rxLen then 0 else if rxOff >= 4096 then rxLen - rxOff else rxLen
  }

  /** The bytes accepted of a payload that starts `off` bytes before rcv_nxt: the new ones, as far as they fit. */
  function Fresh(off: int, payload: seq<Byte>, room: nat): seq<Byte> {
    if 0 <= off < |payload| then payload[off..off + (if |payload| - off <= room then |payload| - off else room)] else []
  }

  ghost predicate Adds(accepted: seq<Byte>, rcvNxt: nat, s: Segment, room: nat, accepted': seq<Byte>) {
    accepted' == accepted + Fresh(Diff(rcvNxt, s.seqno), s.payload, room)
  }

  /** A buffer with no room adds nothing. */
  lemma FreshIs(off: int, payload: seq<Byte>, room: nat)
    ensures 0 <= off < |payload| ==> Fresh(off, payload, room) == payload[off..off + Least(|payload| - off, room)]
    ensures !(0 <= off < |payload|) || room == 0 ==> Fresh(off, payload, room) == []
  {
  }

  lemma TakeEnds(k: Socket)
    ensures SomeTakeEnds(k.payload) || SomeTakeEnds(k.fin) || SomeGiveEnds(k.given) ==> Ends(k)
  {
  }

  lemma NothingAdded(accepted: seq<Byte>, rcvNxt: nat, s: Segment)
    ensures Adds(accepted, rcvNxt, s, 0, accepted)
  {
  }

  /** Segment `s` is the peer's stream from offset `k`, within 2^31 of what is expected, FIN only at its end. */
  ghost predicate FromStream(irs: nat, stream: seq<Byte>, position: nat, s: Segment, k: int) {
    && s.seqno == Wrap(irs + 1 + k) && -TWO31 <= position - k < TWO31
    && (s.payload != [] ==> 0 <= k && k + |s.payload| <= |stream| && s.payload == stream[k..k + |s.payload|])
    && (s.fin ==> k + |s.payload| == |stream|)
  }

  /** A prefix of the stream, all of it once FIN is taken. */
  ghost predicate Tracks(stream: seq<Byte>, accepted: seq<Byte>, peerFin: bool) {
    accepted <= stream && (peerFin ==> accepted == stream)
  }

  lemma SliceJoin(s: seq<Byte>, i: nat, j: nat, k: nat)
    requires i <= j <= k <= |s|
    ensures s[i..k] == s[i..j] + s[j..k]
  {
  }

  lemma TailTail(s: seq<Byte>, a: nat, b: nat)
    requires a + b <= |s|
    ensures s[a..][b..] == s[a + b..]
  {
    TailSlice(s, a, b, |s| - a - b);
  }

  lemma TailSlice(s: seq<Byte>, a: nat, off: nat, n: nat)
    requires a + off + n <= |s|
    ensures s[a..][off..off + n] == s[a + off..a + off + n]
  {
    var tail := s[a..];
    var inner, direct := tail[off..off + n], s[a + off..a + off + n];
    forall i | 0 <= i < n ensures inner[i] == direct[i] {
      assert tail[off + i] == s[a + off + i];
    }
  }

  lemma SliceOfSlice(stream: seq<Byte>, k: nat, len: nat, off: nat, n: nat)
    requires k + len <= |stream| && off + n <= len
    ensures stream[k..k + len][off..off + n] == stream[k + off..k + off + n]
  {
    var whole := stream[k..k + len];
    var inner, direct := whole[off..off + n], stream[k + off..k + off + n];
    forall i | 0 <= i < n ensures inner[i] == direct[i] {
      assert whole[off + i] == stream[k + off + i];
    }
  }

  /** One packet: what it adds keeps tracking the stream. */
  lemma StreamStep(irs: nat, stream: seq<Byte>, accepted: seq<Byte>, peerFin: bool, s: Segment, k: int, room: nat,
                   accepted': seq<Byte>, peerFin': bool)
    requires Tracks(stream, accepted, peerFin) && room <= RX_CAP && |s.payload| <= 0xffff
    requires FromStream(irs, stream, |accepted| + (if peerFin then 1 else 0), s, k)
    requires accepted' == accepted + Fresh(Diff(Wrap(irs + 1 + |accepted| + if peerFin then 1 else 0), s.seqno),
               s.payload, room)
    requires peerFin' ==> peerFin || (s.fin && Wrap(s.seqno + |s.payload|) == Wrap(irs + 1 + |accepted'|))
    ensures Tracks(stream, accepted', peerFin')
  {
    var position := |accepted| + if peerFin then 1 else 0;
    DiffExact(irs + 1 + position, irs + 1 + k);
    var off := position - k;
    var added := Fresh(off, s.payload, room);
    if added != [] {
      assert !peerFin;
      SliceOfSlice(stream, k, |s.payload|, off, |added|);
    }
    assert accepted' <= stream;
    if peerFin' && !peerFin {
      WrapAdd(irs + 1 + k, |s.payload|);
      WrapSame(irs + 1 + k + |s.payload|, irs + 1 + |accepted'|);
    }
  }

  // ---------- Whole runs ----------

  /** What can happen to a connection. */
  datatype Happening =
    | Packet(s: Segment, k: Socket)
    | Io(writable: bool, readable: bool, connectFailed: bool, k: Socket)
    | Tick(givenUp: bool, elapsed: bool)

  ghost predicate OnWire(s: Segment) {
    s.seqno < TWO32 && s.ackno < TWO32 && |s.payload| <= 0xffff
  }

  /** Segment `s` is the peer's stream somewhere, within 2^31 of the position expected. */
  ghost predicate Within(irs: nat, stream: seq<Byte>, position: nat, s: Segment) {
    exists k: int :: FromStream(irs, stream, position, s, k)
  }

  /** A segment of a stream short enough that all of it is within 2^31 of any position in it. */
  ghost predicate InShortStream(irs: nat, stream: seq<Byte>, s: Segment) {
    |stream| < TWO31 - 1 && exists k: nat :: k <= |stream| && FromStream(irs, stream, k, s, k)
  }

  /** A connection between two happenings, as far as the two streams go. */
  datatype Snapshot = Snapshot(
    accepted: seq<Byte>,
    peerFin: bool,
    active: bool,
    connected: bool,
    localEof: bool,
    synAcked: bool,
    finAcked: bool,
    acked: nat,
    local: seq<Byte>,
    txSent: nat,
    window: nat,
    log: seq<Out>)
  {
    /** The offset rcv_nxt names. */
    function Position(): nat { |accepted| + if peerFin then 1 else 0 }

    /** tx_una_seq and tx_len */
    function Una(iss: nat): nat { Wrap(iss + 1 + acked + if finAcked then 1 else 0) }

    function TxLen(): nat { if acked <= |local| then |local| - acked else 0 }

    /** What an acknowledgment covers. */
    function Covers(iss: nat, ackno: nat): nat {
      if synAcked || Diff(ackno, Wrap(iss + 1)) >= 0 then Newly(Diff(ackno, Una(iss)), TxLen()) else 0
    }

    /** tx_sent_offset says what has gone out. */
    ghost predicate Tallies() { exists high: nat :: SentUpTo(log, high, acked, txSent) }
  }

  function Opened(irs: nat, iss: nat, connected: bool, window: nat): Snapshot {
    Snapshot([], false, true, connected, false, false, false, 0, [], 0, if window > 1460 then window else 16384,
             [Out(SynAck, iss, Wrap(irs + 1), [], 0)])
  }

  /** One happening, from one snapshot to the next. */
  ghost predicate Steps(irs: nat, iss: nat, a: Snapshot, h: Happening, b: Snapshot) {
    if !a.active then b == a
    else
      match h
      case Packet(s, k) =>
        && (exists room: nat :: room <= RX_CAP && Receives(irs, iss, a, s, room, b))
        && (b.localEof ==> a.localEof || Ends(k))
      case Io(_, _, connectFailed, _) =>
        if connectFailed && !a.connected then
          b == a.(active := false, log := b.log) && |b.log| == |a.log| + 1 && a.log <= b.log
          && b.log[|a.log|].kind == Reset
        else
          && SendsOnly(a, b, 8) && b.connected && (b.active <==> !(b.finAcked && b.peerFin))
          && (b.synAcked ==> Exhausted(a, b, 8)) && (b.localEof ==> a.localEof || Ends(h.k))
      case Tick(givenUp, elapsed) =>
        && SendsOnly(a, b, 4) && b.connected == a.connected && b.localEof == a.localEof && b.local == a.local
        && b.active == !givenUp
        && (givenUp || !elapsed ==> b.log == a.log && b.txSent == a.txSent)
        && (!givenUp && elapsed && !a.synAcked ==>
              b.log == a.log + [Out(SynAck, iss, Wrap(irs + 1 + a.Position()), [], 0)])
        && (!givenUp && elapsed && a.synAcked && a.TxLen() > 0 ==> Exhausted(a, b, 4))
  }

  /** Nothing comes from the peer; bytes may come from the local side and go out. */
  ghost predicate SendsOnly(a: Snapshot, b: Snapshot, max: nat) {
    && b == a.(active := b.active, connected := b.connected, localEof := b.localEof, local := b.local,
               txSent := b.txSent, log := b.log)
    && a.local <= b.local && InWindow(a, b, max)
  }

  /** What goes out begins within the peer's window, in at most `max` segments of data. */
  ghost predicate InWindow(a: Snapshot, b: Snapshot, max: nat) {
    SendsFrom(a.log, b.log, b.acked, Inflight(b.window)) && DataCount(b.log) <= DataCount(a.log) + max
  }

  /** Everything in the buffer, or as much as the window or `max` segments allow, has been sent. */
  ghost predicate Exhausted(a: Snapshot, b: Snapshot, max: nat) {
    b.txSent == b.TxLen() || b.txSent >= Inflight(b.window) || |b.log| - |a.log| >= max
  }

  /** A packet, of whose new bytes `room` may be taken. */
  ghost predicate Receives(irs: nat, iss: nat, a: Snapshot, s: Segment, room: nat, b: Snapshot) {
    && b.connected == a.connected
    && if Opens(s) then
         var again := !a.synAcked && s.seqno == irs;
         var more := if again then [Out(SynAck, iss, Wrap(irs + 1 + a.Position()), [], 0)] else [];
         b == a.(active := again, log := a.log + more)
       else if s.rst then b == a.(active := false)
       else
         && b.accepted == a.accepted + Fresh(Diff(Wrap(irs + 1 + a.Position()), s.seqno), s.payload, room)
         && (b.peerFin <==> a.peerFin || (s.fin && Wrap(s.seqno + |s.payload|) == Wrap(irs + 1 + |b.accepted|)))
         && (b.synAcked <==> a.synAcked || (s.ack && Diff(s.ackno, Wrap(iss + 1)) >= 0))
         && b.acked == a.acked + (if s.ack then a.Covers(iss, s.ackno) else 0)
         && (a.finAcked ==> b.finAcked)
         && (b.finAcked ==> a.finAcked || (s.ack && b.synAcked && s.ackno == Wrap(iss + 1 + |a.local| + 1)))
         && b.window == (if s.window >= 1460 then s.window else 4096)
         && a.local <= b.local && InWindow(a, b, 8) && (b.synAcked ==> Exhausted(a, b, 8))
         && (s.payload != [] || b.peerFin != a.peerFin ==> |b.log| > |a.log|)
         && (b.active <==> !(b.finAcked && b.peerFin))
  }

  /** `states` are the snapshots before, between and after the happenings. */
  ghost predicate Trace(irs: nat, iss: nat, first: Snapshot, happenings: seq<Happening>, states: seq<Snapshot>) {
    && |states| == |happenings| + 1 && states[0] == first
    && (forall i :: 0 <= i < |states| ==> states[i].Tallies())
    && forall i :: 0 <= i < |happenings| ==> Steps(irs, iss, states[i], happenings[i], states[i + 1])
  }

  /** Every packet that met the connection open was within 2^31 of the position it met. */
  ghost predicate AllWithin(irs: nat, stream: seq<Byte>, happenings: seq<Happening>, states: seq<Snapshot>)
    requires |happenings| <= |states|
  {
    forall i :: 0 <= i < |happenings| && states[i].active && happenings[i].Packet? ==>
      Within(irs, stream, states[i].Position(), happenings[i].s)
  }

  ghost predicate AllShort(irs: nat, stream: seq<Byte>, happenings: seq<Happening>) {
    forall i :: 0 <= i < |happenings| && happenings[i].Packet? ==> InShortStream(irs, stream, happenings[i].s)
  }

  /** The happening is a packet whose acknowledgment covers bytes that have not gone out. */
  ghost predicate PassesAt(iss: nat, a: Snapshot, h: Happening) {
    a.active && h.Packet? && h.s.ack && !h.s.rst && !AllOut(a.log, a.acked + a.Covers(iss, h.s.ackno))
  }

  ghost predicate NonePasses(iss: nat, happenings: seq<Happening>, states: seq<Snapshot>)
    requires |happenings| <= |states|
  {
    forall i :: 0 <= i < |happenings| ==> !PassesAt(iss, states[i], happenings[i])
  }

  /** One happening keeps tracking the stream. */
  lemma StepTracks(irs: nat, iss: nat, stream: seq<Byte>, a: Snapshot, h: Happening, b: Snapshot)
    requires Steps(irs, iss, a, h, b) && Tracks(stream, a.accepted, a.peerFin) && (h.Packet? ==> OnWire(h.s))
    requires a.active && h.Packet? ==> Within(irs, stream, a.Position(), h.s)
    ensures Tracks(stream, b.accepted, b.peerFin)
  {
    hide Tracks, FromStream, Diff, Wrap;
    if a.active && h.Packet? && !Opens(h.s) && !h.s.rst {
      var room: nat :| room <= RX_CAP && Receives(irs, iss, a, h.s, room, b);
      var k: int :| FromStream(irs, stream, a.Position(), h.s, k);
      StreamStep(irs, stream, a.accepted, a.peerFin, h.s, k, room, b.accepted, b.peerFin);
    }
  }

  /** One happening leaves all acknowledged bytes sent exactly if they were and it does not pass. */
  lemma StepAcks(irs: nat, iss: nat, a: Snapshot, h: Happening, b: Snapshot)
    requires Steps(irs, iss, a, h, b)
    ensures AllOut(b.log, b.acked) <==> AllOut(a.log, a.acked) && !PassesAt(iss, a, h)
  {
    hide WentOut, Diff, Wrap, Newly;
    StepSends(irs, iss, a, h, b);
    NoneBefore(a.log, b.log, b.acked, Inflight(b.window));
  }

  /** Whatever a step sends lies at or beyond what is acknowledged after it. */
  lemma StepSends(irs: nat, iss: nat, a: Snapshot, h: Happening, b: Snapshot)
    requires Steps(irs, iss, a, h, b)
    ensures SendsFrom(a.log, b.log, b.acked, Inflight(b.window))
    ensures b.acked == a.acked + if a.active && h.Packet? && h.s.ack && !h.s.rst then a.Covers(iss, h.s.ackno) else 0
  {
    hide Diff, Wrap, Newly, Fresh;
  }

  /** In every run all acknowledged bytes have gone out if and only if no packet passed. */
  lemma {:induction false} TraceAcks(irs: nat, iss: nat, connected: bool, window: nat,
                                     happenings: seq<Happening>, states: seq<Snapshot>, n: nat)
    requires Trace(irs, iss, Opened(irs, iss, connected, window), happenings, states) && n <= |happenings|
    ensures AllOut(states[n].log, states[n].acked) <==> NonePasses(iss, happenings[..n], states)
  {
    hide Steps, PassesAt, WentOut;
    if n > 0 {
      TraceAcks(irs, iss, connected, window, happenings, states, n - 1);
      StepAcks(irs, iss, states[n - 1], happenings[n - 1], states[n]);
      var now, before := happenings[..n], happenings[..n - 1];
      assert now[n - 1] == happenings[n - 1];
      assert forall i :: 0 <= i < n - 1 ==> now[i] == before[i];
    }
  }

  /** In every run whose packets are the stream, a prefix of the stream has been accepted at every point. */
  lemma {:induction false} TraceTracks(irs: nat, iss: nat, connected: bool, window: nat, stream: seq<Byte>,
                                       happenings: seq<Happening>, states: seq<Snapshot>, n: nat)
    requires Trace(irs, iss, Opened(irs, iss, connected, window), happenings, states)
    requires n <= |happenings| && AllOnWire(happenings)
    requires AllWithin(irs, stream, happenings, states) || AllShort(irs, stream, happenings)
    ensures Tracks(stream, states[n].accepted, states[n].peerFin)
  {
    hide Steps, Tracks, Within, InShortStream;
    if n == 0 {
      Untouched(stream);
    } else {
      TraceTracks(irs, iss, connected, window, stream, happenings, states, n - 1);
      var a, h := states[n - 1], happenings[n - 1];
      if h.Packet? {
        ShortIsWithin(irs, stream, a.accepted, a.peerFin, h.s);
      }
      StepTracks(irs, iss, stream, a, h, states[n]);
    }
  }

  lemma Untouched(stream: seq<Byte>)
    ensures Tracks(stream, [], false)
  {
  }

  ghost predicate AllOnWire(happenings: seq<Happening>) {
    forall i :: 0 <= i < |happenings| && happenings[i].Packet? ==> OnWire(happenings[i].s)
  }

  /**
    Any run of a connection, packets lost, repeated, overlapping and out of order.  `states` are its
    snapshots, each following from the one before by what happened.  If every packet is the peer's
    stream somewhere within 2^31 of the position it met, the bridge has accepted a prefix of that stream,
    hands it on in order, takes FIN only at its end, and everything it sends says the truth.  All
    acknowledged bytes have gone out if and only if no packet acknowledged bytes that had not.
    */
  method Run(irs: nat, iss: nat, connected: bool, window: nat, happenings: seq<Happening>, ghost stream: seq<Byte>)
    returns (c: Conn, ghost states: seq<Snapshot>)
    requires irs < TWO32 && iss < TWO32 && AllOnWire(happenings)
    ensures fresh(c) && c.Valid() && c.irs == irs && c.iss == iss
    ensures Trace(irs, iss, Opened(irs, iss, connected, window), happenings, states) && states[|happenings|] == c.Now()
    ensures AllOut(c.log, c.acked) <==> NonePasses(iss, happenings, states)
    ensures c.acked <= c.high <==> NonePasses(iss, happenings, states)
    ensures AllWithin(irs, stream, happenings, states) || AllShort(irs, stream, happenings) ==>
              Tracks(stream, c.accepted, c.peerFin)
  {
    hide Tracks, AllWithin, AllShort, NonePasses, Steps, Conn.Receiving, Conn.Sending, Conn.Sent, Conn.Honest;
    c := new Conn(irs, iss, connected, window);
    states := [c.Now()];
    c.Tallied();
    for i := 0 to |happenings|
      invariant fresh(c) && fresh(c.rxBuf) && fresh(c.txBuf) && c.Valid() && c.irs == irs && c.iss == iss
      invariant |states| == i + 1 && states[0] == Opened(irs, iss, connected, window) && states[i] == c.Now()
      invariant forall j :: 0 <= j <= i ==> states[j].Tallies()
      invariant forall j :: 0 <= j < i ==> Steps(irs, iss, states[j], happenings[j], states[j + 1])
    {
      ghost var a := c.Now();
      if c.active {
        OneHappening(c, happenings[i]);
      } else {
        Idles(irs, iss, a, happenings[i]);
      }
      states := states + [c.Now()];
      c.Tallied();
    }
    assert happenings[..|happenings|] == happenings;
    TraceAcks(irs, iss, connected, window, happenings, states, |happenings|);
    c.Marked();
    if AllWithin(irs, stream, happenings, states) || AllShort(irs, stream, happenings) {
      TraceTracks(irs, iss, connected, window, stream, happenings, states, |happenings|);
    }
  }

  /** A closed connection stays as it is. */
  lemma Idles(irs: nat, iss: nat, a: Snapshot, h: Happening)
    requires !a.active
    ensures Steps(irs, iss, a, h, a)
  {
  }

  /** An acknowledgment of no more than tx_sent_offset covers bytes that have gone out. */
  lemma SentDoesNotPass(iss: nat, a: Snapshot, h: Happening)
    requires a.Tallies() && AllOut(a.log, a.acked)
    requires h.Packet? && a.Covers(iss, h.s.ackno) <= a.txSent
    ensures !PassesAt(iss, a, h)
  {
    var high: nat :| SentUpTo(a.log, high, a.acked, a.txSent);
    AllOutExactly(a.log, high, a.acked);
    AllOutExactly(a.log, high, a.acked + a.Covers(iss, h.s.ackno));
  }

  /** Without acknowledgments in the packets nothing is acknowledged that has not gone out. */
  lemma NoAcksNonePasses(iss: nat, happenings: seq<Happening>, states: seq<Snapshot>)
    requires |happenings| <= |states|
    requires forall i :: 0 <= i < |happenings| && happenings[i].Packet? ==> !happenings[i].s.ack
    ensures NonePasses(iss, happenings, states)
  {
  }

  /**
    Which acknowledgments pass: those of a position `k` beyond what has gone out, while bytes that have
    not gone out are waiting.
    */
  lemma PassesMeans(c: Conn, k: int)
    requires c.Valid() && c.acked <= c.high && -TWO31 <= k - c.acked < TWO31 - 1
    ensures c.Passes(Wrap(c.iss + 1 + k)) <==>
              c.AckedSyn(Wrap(c.iss + 1 + k)) && c.high < k && c.high < |c.local|
    ensures c.Passes(Wrap(c.iss + 1 + k)) <==> !AllOut(c.log, c.acked + c.Now().Covers(c.iss, Wrap(c.iss + 1 + k)))
  {
    hide HonestLog, AllOut, WentOut, Wrap, Diff, Conn.Receiving;
    AllOutExactly(c.log, c.high, c.acked + c.Now().Covers(c.iss, Wrap(c.iss + 1 + k)));
    if !c.finAcked {
      DiffExact(c.iss + 1 + k, c.iss + 1 + c.acked);
    }
  }

  /** A peer may acknowledge bytes it has not been sent, and they are dropped. */
  method UnsentDropped(iss: nat, data: seq<Byte>) returns (c: Conn)
    requires iss < TWO32 && 0 < |data| <= TX_CAP
    ensures c.Valid() && c.acked == |data| && c.high == 0 && c.local == data
    ensures forall i :: 0 <= i < |c.log| ==> c.log[i].kind != Data
  {
    hide HonestLog, SentUpTo, Wrap, Diff, Conn.Receiving, Conn.Sending, Conn.Honest, Conn.Sent;
    c := new Conn(0, iss, true, 65535);
    c.AppendTx(data);
    assert [] + data == data;
    FinAckAhead(iss, 0, |data|);
    DiffExact(iss + 1 + |data|, iss + 1);
    c.ProcessAck(Wrap(iss + 1 + |data|));
  }

  method OneHappening(c: Conn, h: Happening)
    requires c.Valid() && c.active && (h.Packet? ==> OnWire(h.s))
    modifies c, c.rxBuf, c.txBuf
    ensures c.Valid() && Steps(c.irs, c.iss, old(c.Now()), h, c.Now())
  {
    hide Conn.Valid, Receives, SendsOnly, Exhausted;
    match h {
      case Packet(s, k) =>
        ghost var room := OnePacket(c, s, k);
        assert Receives(c.irs, c.iss, old(c.Now()), s, room, c.Now());
      case Io(_, _, _, _) => OneIo(c, h);
      case Tick(_, _) => OneTick(c, h);
    }
  }

  method OneIo(c: Conn, h: Happening)
    requires c.Valid() && c.active && h.Io?
    modifies c, c.rxBuf, c.txBuf
    ensures c.Valid() && Steps(c.irs, c.iss, old(c.Now()), h, c.Now())
  {
    hide Conn.Receiving, Conn.Sending, Conn.Sent, Conn.Honest, Receives, Inflight, SendsFrom;
    c.Numbers();
    c.IoReady(h.writable, h.readable, h.connectFailed, h.k);
    c.Numbers();
  }

  method OneTick(c: Conn, h: Happening)
    requires c.Valid() && c.active && h.Tick?
    modifies c, c.rxBuf, c.txBuf
    ensures c.Valid() && Steps(c.irs, c.iss, old(c.Now()), h, c.Now())
  {
    hide Conn.Receiving, Conn.Sending, Conn.Sent, Conn.Honest, Receives, Inflight, SendsFrom;
    c.Numbers();
    c.Timer(h.givenUp, h.elapsed);
    c.Numbers();
  }

  lemma ShortIsWithin(irs: nat, stream: seq<Byte>, accepted: seq<Byte>, peerFin: bool, s: Segment)
    ensures Tracks(stream, accepted, peerFin) && InShortStream(irs, stream, s) ==>
              Within(irs, stream, |accepted| + (if peerFin then 1 else 0), s)
  {
    if Tracks(stream, accepted, peerFin) && InShortStream(irs, stream, s) {
      var k: nat :| k <= |stream| && FromStream(irs, stream, k, s, k);
      assert FromStream(irs, stream, |accepted| + (if peerFin then 1 else 0), s, k);
    }
  }

  /** One packet, by the numbers of the snapshot alone. */
  method OnePacket(c: Conn, s: Segment, k: Socket) returns (ghost room: nat)
    requires c.Valid() && c.active && OnWire(s)
    modifies c, c.rxBuf, c.txBuf
    ensures c.Valid() && room <= RX_CAP && Receives(c.irs, c.iss, old(c.Now()), s, room, c.Now())
    ensures c.localEof ==> old(c.localEof) || Ends(k)
  {
    hide Diff, Wrap, HonestLog, SentUpTo, Newly, Fresh;
    ghost var a := c.Now();
    c.Numbers();
    room := c.HandlePacket(s, k);
    c.Numbers();
  }

  /** How many bytes of a buffer of `len` an acknowledgment `n` ahead of the first covers. */
  function Newly(n: int, len: nat): nat {
    if n <= 0 then 0 else if n <= len then n else len
  }

  /** The acknowledgment of FIN is ahead of everything in the buffer. */
  lemma FinAckAhead(iss: nat, acked: nat, len: nat)
    requires len <= TX_CAP
    ensures Diff(Wrap(iss + 1 + acked + len + 1), Wrap(iss + 1 + acked)) == len + 1
    ensures Wrap(Wrap(Wrap(iss + 1 + acked) + len) + 1) == Wrap(iss + 1 + acked + len + 1)
  {
    DiffExact(iss + 1 + acked + len + 1, iss + 1 + acked);
    WrapAdd(iss + 1 + acked, len);
    WrapAdd(iss + 1 + acked + len, 1);
  }

  /** An acknowledgment one past the buffer can only be the one for FIN: nothing of the buffer is left. */
  lemma FinIsLast(ackno: nat, before: nat, after: nat, drop: nat, len: nat)
    requires ackno < TWO32 && before < TWO32 && Diff(ackno, before) > 0
    requires drop == if Diff(ackno, before) <= len then Diff(ackno, before) else len
    requires after == Wrap(before + drop) && ackno == Wrap(after + 1) && len <= TX_CAP
    ensures drop == len
  {
    WrapAdd(before + drop, 1);
  }
}
