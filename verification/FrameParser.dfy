/**
  HTTP/3 framing of core/tincd/src/h3.c: the variable-length integers of section 16 of RFC 9000 and
  the resumable frame parser of section 7.1 of RFC 9114.
  */
module FrameParser {
  import opened Wrappers
  import opened Bits

  const TWO62: nat := 0x4000_0000_0000_0000
  const TWO64: nat := 0x1_0000_0000_0000_0000

  // ---------- Variable-length integers ----------

  /** The low `n` bytes of `v`, most significant first. */
  function BigEndian(v: nat, n: nat): (bs: seq<Byte>)
    ensures |bs| == n
  {
    if n == 0 then [] else BigEndian(v / 256, n - 1) + [v % 256]
  }

  /** The bytes `bs` shifted in below `r`. */
  function ShiftIn(r: nat, bs: seq<Byte>): nat {
    if bs == [] then r else ShiftIn(r, bs[..|bs| - 1]) * 256 + bs[|bs| - 1]
  }

  /** `v` without its low `n` bytes. */
  function Top(v: nat, n: nat): nat {
    if n == 0 then v else Top(v / 256, n - 1)
  }

  lemma {:induction false} ShiftInBigEndian(v: nat, n: nat)
    ensures ShiftIn(Top(v, n), BigEndian(v, n)) == v
  {
    hide ShiftIn, BigEndian;
    BigEndianIs(v, n);
    if n == 0 {
      ShiftInNothing(v);
    } else {
      ShiftInBigEndian(v / 256, n - 1);
      ShiftInOne(Top(v, n), BigEndian(v / 256, n - 1), v % 256);
    }
  }

  lemma ShiftInOne(r: nat, bs: seq<Byte>, b: Byte)
    ensures ShiftIn(r, bs + [b]) == ShiftIn(r, bs) * 256 + b
  {
    assert (bs + [b])[..|bs|] == bs;
  }

  lemma TopValues(v: nat)
    ensures Top(v, 1) == v / 256 && Top(v, 3) == v / 0x100_0000 && Top(v, 7) == v / 0x100_0000_0000_0000
  {
    assert Top(v, 1) == Top(v / 256, 0);
    Top3(v);
    Top3(v / 0x100_0000);
    var w := v / 0x1_0000_0000_0000;
    assert v / 0x100_0000 / 0x100_0000 == w;
    assert Top(v, 4 + 3) == Top(v / 0x100_0000, 4) && Top(v / 0x100_0000, 1 + 3) == Top(w, 1);
    assert Top(w, 1) == Top(w / 256, 0);
  }

  lemma Top3(v: nat)
    ensures Top(v, 3) == v / 0x100_0000
    ensures forall n: nat :: Top(v, n + 3) == Top(v / 0x100_0000, n)
  {
    forall n: nat ensures Top(v, n + 3) == Top(v / 0x100_0000, n) {
      assert Top(v, n + 3) == Top(v / 256, n + 2) == Top(v / 256 / 256, n + 1) == Top(v / 256 / 256 / 256, n);
      assert v / 256 / 256 / 256 == v / 0x100_0000;
    }
    assert Top(v, 0 + 3) == Top(v / 0x100_0000, 0);
  }

  function Pow256(n: nat): (p: nat)
    ensures p > 0
  {
    if n == 0 then 1 else 256 * Pow256(n - 1)
  }

  lemma {:induction false} ShiftInAdd(r: nat, d: nat, bs: seq<Byte>)
    ensures ShiftIn(r + d, bs) == ShiftIn(r, bs) + d * Pow256(|bs|)
  {
    if bs == [] {
      assert Pow256(0) == 1;
    } else {
      var n := |bs| - 1;
      ShiftInAdd(r, d, bs[..n]);
      assert Pow256(n + 1) == 256 * Pow256(n);
      assert d * (256 * Pow256(n)) == 256 * (d * Pow256(n));
    }
  }

  /** h3_varint_put */
  function VarintBytes(v: nat): (bs: seq<Byte>)
    requires v < TWO64
    ensures |bs| == 1 || |bs| == 2 || |bs| == 4 || |bs| == 8
  {
    if v < 0x40 then [v]
    else if v < 0x4000 then [0x40 + v / 256] + BigEndian(v, 1)
    else if v < 0x4000_0000 then [0x80 + v / 0x100_0000] + BigEndian(v, 3)
    else [0xc0 + v / 0x100_0000_0000_0000 % 64] + BigEndian(v, 7)
  }

  /** The bytes of a number in network order. */
  predicate Network(v: nat, bs: seq<Byte>) {
    v == match |bs|
    case 1 => bs[0] as int
    case 2 => bs[0] as int * 256 + bs[1]
    case 4 => bs[0] as int * 0x100_0000 + bs[1] as int * 0x1_0000 + bs[2] as int * 256 + bs[3]
    case 8 =>
      bs[0] as int * 0x100_0000_0000_0000 + bs[1] as int * 0x1_0000_0000_0000 + bs[2] as int * 0x100_0000_0000
      + bs[3] as int * 0x1_0000_0000 + bs[4] as int * 0x100_0000 + bs[5] as int * 0x1_0000 + bs[6] as int * 256 + bs[7]
    case _ => -1
  }

  /** The shortest of the four forms that has room: the length in the two top bits, the rest in network order. */
  lemma VarintMeans(v: nat)
    requires v < TWO62
    ensures var bs := VarintBytes(v);
            && |bs| == (if v < 0x40 then 1 else if v < 0x4000 then 2 else if v < 0x4000_0000 then 4 else 8)
            && bs[0] / 64 == (if |bs| == 1 then 0 else if |bs| == 2 then 1 else if |bs| == 4 then 2 else 3)
            && Network(v, bs[0 := bs[0] % 64])
  {
    hide BigEndian;
    if 0x40 <= v < 0x4000 {
      BigEndianIs(v, 1);
      BigEndianIs(v / 256, 0);
    } else if 0x4000 <= v < 0x4000_0000 {
      BigEndianThree(v);
    } else if v >= 0x4000_0000 {
      EightBytes(v);
    }
  }

  lemma EightBytes(v: nat)
    requires 0x4000_0000 <= v < TWO62
    ensures Network(v, [v / 0x100_0000_0000_0000] + BigEndian(v, 7)) && v / 0x100_0000_0000_0000 < 64
    ensures VarintBytes(v) == [0xc0 + v / 0x100_0000_0000_0000] + BigEndian(v, 7)
  {
    hide BigEndian;
    var a := v / 0x100_0000;
    var b := a / 0x100_0000;
    BigEndianThree(v);
    BigEndianThree(a);
    BigEndianIs(b, 1);
    BigEndianIs(b / 256, 0);
    BigEndianJoin(v);
    assert b / 256 == v / 0x100_0000_0000_0000;
  }

  lemma BigEndianIs(v: nat, n: nat)
    ensures n > 0 ==> BigEndian(v, n) == BigEndian(v / 256, n - 1) + [v % 256]
    ensures BigEndian(v, 0) == []
  {
  }

  lemma BigEndianThree(v: nat)
    ensures var bs := BigEndian(v, 3);
            v == v / 0x100_0000 * 0x100_0000 + bs[0] as int * 0x1_0000 + bs[1] as int * 256 + bs[2]
  {
    hide BigEndian;
    var a := v / 256;
    var b := a / 256;
    BigEndianIs(v, 3);
    BigEndianIs(a, 2);
    BigEndianIs(b, 1);
    BigEndianIs(b / 256, 0);
    assert BigEndian(v, 3) == [b % 256, a % 256, v % 256];
    ThreeDigits(v);
  }

  lemma ThreeDigits(v: nat)
    ensures v == v / 0x100_0000 * 0x100_0000 + v / 256 / 256 % 256 * 0x1_0000 + v / 256 % 256 * 256 + v % 256
  {
    assert v / 256 / 256 / 256 == v / 0x100_0000;
  }

  lemma BigEndianJoin(v: nat)
    ensures BigEndian(v, 7)
            == BigEndian(v / 0x100_0000 / 0x100_0000, 1) + BigEndian(v / 0x100_0000, 3) + BigEndian(v, 3)
  {
    hide BigEndian;
    var a := v / 0x100_0000;
    var b := a / 0x100_0000;
    BigEndianTail(v, 4);
    BigEndianTail(a, 1);
  }

  lemma BigEndianTail(v: nat, n: nat)
    ensures BigEndian(v, n + 3) == BigEndian(v / 0x100_0000, n) + BigEndian(v, 3)
  {
    hide BigEndian;
    BigEndianIs(v, n + 3);
    BigEndianIs(v / 256, n + 2);
    BigEndianIs(v / 256 / 256, n + 1);
    BigEndianIs(v, 3);
    BigEndianIs(v / 256, 2);
    BigEndianIs(v / 256 / 256, 1);
    BigEndianIs(v / 0x100_0000, 0);
    assert v / 256 / 256 / 256 == v / 0x100_0000;
  }

  /** The length the first byte announces. */
  function VarintLen(b: Byte): (n: nat)
    ensures n == 1 || n == 2 || n == 4 || n == 8
  {
    if b < 0x40 then 1 else if b < 0x80 then 2 else if b < 0xc0 then 4 else 8
  }

  /** The integer at the head of `buf`, and its length; None while bytes are missing. */
  function GetVarint(buf: seq<Byte>): (r: Option<(nat, nat)>)
    ensures r.Some? ==> 1 <= r.value.1 <= 8 && r.value.1 <= |buf|
    ensures |buf| >= 8 ==> r.Some?
  {
    if buf == [] || |buf| < VarintLen(buf[0]) then None
    else Some((ShiftIn(buf[0] % 0x40, buf[1..VarintLen(buf[0])]), VarintLen(buf[0])))
  }

  /** h3_varint_get */
  method ReadVarint(buf: seq<Byte>) returns (n: nat, v: nat)
    ensures n == 0 <==> GetVarint(buf) == None
    ensures n > 0 ==> GetVarint(buf) == Some((v, n))
  {
    v := 0;
    if |buf| == 0 {
      return 0, 0;
    }
    n := VarintLen(buf[0]);
    if |buf| < n {
      return 0, 0;
    }
    v := buf[0] % 0x40;
    for i := 1 to n
      invariant v == ShiftIn(buf[0] % 0x40, buf[1..i])
    {
      assert buf[1..i + 1][..i - 1] == buf[1..i];
      v := v * 256 + buf[i];
    }
  }

  /** What was written is read back, its two top bits aside: in full below 2^62. */
  lemma VarintReadBack(v: nat, post: seq<Byte>)
    requires v < TWO64
    ensures GetVarint(VarintBytes(v) + post) == Some((v % TWO62, |VarintBytes(v)|))
  {
    hide Pow256, ShiftIn, BigEndian, Top;
    var bs := VarintBytes(v);
    var buf := bs + post;
    assert buf[0] == bs[0] && buf[1..|bs|] == bs[1..];
    TopValues(v);
    if v < 0x40 {
      assert bs[1..] == [];
      ShiftInNothing(v);
    } else if v < 0x4000 {
      assert bs[1..] == BigEndian(v, 1);
      ShiftInBigEndian(v, 1);
    } else if v < 0x4000_0000 {
      assert bs[1..] == BigEndian(v, 3);
      ShiftInBigEndian(v, 3);
    } else {
      assert bs[1..] == BigEndian(v, 7);
      LongRead(v);
    }
  }

  lemma LongRead(v: nat)
    requires v < TWO64
    ensures ShiftIn(v / 0x100_0000_0000_0000 % 64, BigEndian(v, 7)) == v % TWO62
  {
    hide Pow256, ShiftIn, BigEndian, Top;
    var top := v / 0x100_0000_0000_0000;
    TopValues(v);
    ShiftInBigEndian(v, 7);
    ShiftInAdd(top % 64, top - top % 64, BigEndian(v, 7));
    Pow256Seven();
    LongForm(v);
  }

  lemma ShiftInNothing(v: nat)
    ensures ShiftIn(v, []) == v
  {
  }

  lemma Pow256Seven()
    ensures Pow256(7) == 0x100_0000_0000_0000
  {
    assert Pow256(2) == 0x1_0000;
    assert Pow256(4) == 0x1_0000_0000;
    assert Pow256(6) == 0x1_0000_0000_0000;
  }

  lemma LongForm(v: nat)
    requires v < TWO64
    ensures var top := v / 0x100_0000_0000_0000;
            v - (top - top % 64) * 0x100_0000_0000_0000 == v % TWO62
  {
    var top, low := v / 0x100_0000_0000_0000, v % 0x100_0000_0000_0000;
    var q := top / 64;
    assert top == 64 * q + top % 64;
    assert v == top * 0x100_0000_0000_0000 + low;
    assert v == q * TWO62 + (top % 64 * 0x100_0000_0000_0000 + low);
  }

  // ---------- Frames ----------

  const FRAME_HEADERS: nat := 1

  /** The size of the header buffer. */
  const HDR_MAX := 16

  /** A complete frame header at the head of `buf`: type, payload length, bytes used. */
  function Header(buf: seq<Byte>): (r: Option<(nat, nat, nat)>)
    ensures r.Some? ==> 2 <= r.value.2 <= HDR_MAX && r.value.2 <= |buf|
    ensures |buf| >= HDR_MAX ==> r.Some?
  {
    match GetVarint(buf)
    case None => None
    case Some((kind, n1)) =>
      match GetVarint(buf[n1..])
      case None => None
      case Some((flen, n2)) => Some((kind, flen, n1 + n2))
  }

  lemma VarintStable(buf: seq<Byte>, more: seq<Byte>)
    requires GetVarint(buf).Some?
    ensures GetVarint(buf + more) == GetVarint(buf)
  {
    var n := VarintLen(buf[0]);
    assert (buf + more)[1..n] == buf[1..n];
  }

  lemma HeaderStable(buf: seq<Byte>, more: seq<Byte>)
    requires Header(buf).Some?
    ensures Header(buf + more) == Header(buf)
  {
    hide ShiftIn;
    VarintStable(buf, more);
    var n1 := GetVarint(buf).value.1;
    assert (buf + more)[n1..] == buf[n1..] + more;
    VarintStable(buf[n1..], more);
  }

  /** A header is complete exactly when its last byte has come. */
  lemma HeaderExact(buf: seq<Byte>, k: nat)
    requires Header(buf).Some? && k <= |buf|
    ensures Header(buf[..k]) == if k < Header(buf).value.2 then None else Header(buf)
  {
    assert buf == buf[..k] + buf[k..];
    if Header(buf[..k]).Some? {
      HeaderStable(buf[..k], buf[k..]);
    }
  }

  /** What the parser is in the middle of. */
  datatype Where = InHeader(got: seq<Byte>) | InPayload(kind: nat, remain: nat)

  /** What the callback sees, byte by byte: payload bytes, the last of each frame marked, and empty frames. */
  datatype Token = PayloadByte(kind: nat, b: Byte, last: bool) | EmptyFrame(kind: nat)

  /** One call of the callback; `remain` is what the parser's field of that name shows it. */
  datatype Event = Event(kind: nat, payload: seq<Byte>, remain: nat)
  {
    /** How a callback tells that the frame is whole. */
    predicate Ends() { |payload| == remain }

    predicate Proper() { |payload| <= remain && (payload == [] ==> remain == 0) }
  }

  predicate Sane(w: Where) {
    match w
    case InHeader(got) => Header(got) == None
    case InPayload(_, remain) => remain > 0
  }

  function Tokens(e: Event): seq<Token> {
    if e.payload == [] then [EmptyFrame(e.kind)] else Tagged(e.kind, e.payload, e.Ends())
  }

  /** A piece of payload; the frame ends with it or not. */
  function Tagged(kind: nat, bytes: seq<Byte>, ends: bool): (r: seq<Token>)
    ensures |r| == |bytes|
  {
    seq(|bytes|, i requires 0 <= i < |bytes| => PayloadByte(kind, bytes[i], ends && i == |bytes| - 1))
  }

  function Flat(events: seq<Event>): seq<Token> {
    if events == [] then [] else Flat(events[..|events| - 1]) + Tokens(events[|events| - 1])
  }

  /** One byte at a time: the parser's meaning, with no buffering and no pieces. */
  function OneByte(w: Where, b: Byte): (r: (Where, seq<Token>))
    requires Sane(w)
    ensures Sane(r.0)
  {
    match w
    case InPayload(kind, remain) =>
      ((if remain == 1 then InHeader([]) else InPayload(kind, remain - 1)), [PayloadByte(kind, b, remain == 1)])
    case InHeader(got) =>
      match Header(got + [b])
      case None => (InHeader(got + [b]), [])
      case Some((kind, flen, _)) =>
        if flen == 0 then (InHeader([]), [EmptyFrame(kind)]) else (InPayload(kind, flen), [])
  }

  function Delivered(w: Where, bytes: seq<Byte>): (r: (Where, seq<Token>))
    requires Sane(w)
    ensures Sane(r.0)
  {
    if bytes == [] then (w, [])
    else
      var n := |bytes| - 1;
      var (mid, before) := Delivered(w, bytes[..n]);
      var (end, last) := OneByte(mid, bytes[n]);
      (end, before + last)
  }

  /** Bytes in two parts are the same bytes. */
  lemma {:induction false} DeliveredSplit(w: Where, a: seq<Byte>, b: seq<Byte>)
    requires Sane(w)
    ensures var (mid, first) := Delivered(w, a);
            Delivered(w, a + b) == (Delivered(mid, b).0, first + Delivered(mid, b).1)
  {
    hide OneByte, Sane;
    if b == [] {
      assert a + b == a;
      assert Delivered(w, a).1 + [] == Delivered(w, a).1;
    } else {
      var n := |b| - 1;
      DeliveredSplit(w, a, b[..n]);
      assert (a + b)[..|a + b| - 1] == a + b[..n];
      var mid := Delivered(w, a).0;
      var (end, last) := OneByte(Delivered(mid, b[..n]).0, b[n]);
      var first, more := Delivered(w, a).1, Delivered(mid, b[..n]).1;
      assert first + (more + last) == (first + more) + last;
    }
  }

  /** A header whose last byte is at `k` is collected byte by byte, then acted on. */
  lemma {:induction false} DeliverHeaderPart(got: seq<Byte>, bytes: seq<Byte>)
    requires Header(got + bytes) == None
    ensures Header(got) == None && Delivered(InHeader(got), bytes) == (InHeader(got + bytes), [])
  {
    if bytes == [] {
      assert got + bytes == got;
    } else {
      var n := |bytes| - 1;
      assert got + bytes == (got + bytes[..n]) + [bytes[n]];
      if Header(got + bytes[..n]).Some? {
        HeaderStable(got + bytes[..n], [bytes[n]]);
      }
      DeliverHeaderPart(got, bytes[..n]);
      NoTokens([]);
    }
  }

  lemma NoTokens(ts: seq<Token>)
    ensures [] + ts == ts && ts + [] == ts
  {
  }

  lemma DeliverHeader(got: seq<Byte>, bytes: seq<Byte>)
    requires Header(got) == None && Header(got + bytes).Some? && Header(got + bytes).value.2 == |got + bytes|
    ensures var (kind, flen, _) := Header(got + bytes).value;
            Delivered(InHeader(got), bytes)
            == if flen == 0 then (InHeader([]), [EmptyFrame(kind)]) else (InPayload(kind, flen), [])
  {
    hide Header;
    assert got + [] == got;
    var n := |bytes| - 1;
    var all := got + bytes;
    HeaderExact(all, |got| + n);
    assert all[..|got| + n] == got + bytes[..n];
    DeliverHeaderPart(got, bytes[..n]);
    assert all == (got + bytes[..n]) + [bytes[n]];
    NoTokens([EmptyFrame(Header(all).value.0)]);
    NoTokens([]);
  }

  /** Payload bytes are handed on as they are. */
  lemma {:induction false} DeliverPayload(kind: nat, remain: nat, bytes: seq<Byte>)
    requires 0 < |bytes| <= remain
    ensures Delivered(InPayload(kind, remain), bytes)
            == ((if |bytes| == remain then InHeader([]) else InPayload(kind, remain - |bytes|)),
                Tagged(kind, bytes, |bytes| == remain))
  {
    hide Header;
    var n := |bytes| - 1;
    if n > 0 {
      DeliverPayload(kind, remain, bytes[..n]);
    }
    assert Tagged(kind, bytes, |bytes| == remain)
        == Tagged(kind, bytes[..n], false) + [PayloadByte(kind, bytes[n], |bytes| == remain)];
  }

  lemma FlatSnoc(events: seq<Event>, e: Event)
    ensures Flat(events + [e]) == Flat(events) + Tokens(e)
  {
    assert (events + [e])[..|events|] == events;
  }

  // ---------- The parser object ----------

  /** h3_parser_t */
  class Parser {
    const hdr: array<Byte>
    var hlen: nat
    var kind: nat
    var remain: nat
    var inPayload: bool
    var seenHeaders: bool

    ghost predicate Valid()
      reads this, hdr
    {
      && hdr.Length == HDR_MAX && hlen < HDR_MAX
      && (inPayload ==> hlen == 0)
      && (inPayload && kind == FRAME_HEADERS ==> seenHeaders)
      && Sane(State())
    }

    ghost function State(): Where
      requires hlen <= hdr.Length
      reads this, hdr
    {
      if inPayload then InPayload(kind, remain) else InHeader(hdr[..hlen])
    }

    constructor ()
      ensures Valid() && State() == InHeader([]) && !seenHeaders && fresh(hdr)
    {
      hdr := new Byte[HDR_MAX];
      hlen, kind, remain, inPayload, seenHeaders := 0, 0, 0, false, false;
      new;
      assert hdr[..0] == [];
    }

    /** The memcpy into the header buffer. */
    method Collect(bytes: seq<Byte>)
      requires hlen + |bytes| <= hdr.Length
      modifies hdr
      ensures hdr[..hlen + |bytes|] == old(hdr[..hlen]) + bytes
    {
      forall k | 0 <= k < |bytes| {
        hdr[hlen + k] := bytes[k];
      }
    }

    /** Collects header bytes; acts on the header once it is complete. */
    method TakeHeader(buf: seq<Byte>) returns (ok: bool, used: nat, events: seq<Event>)
      requires Valid() && !inPayload && |buf| > 0
      modifies this, hdr
      ensures ok && Valid() && 0 < used <= |buf|
      ensures Delivered(old(State()), buf[..used]) == (State(), Flat(events))
      ensures seenHeaders <==>
                old(seenHeaders) || (inPayload && kind == FRAME_HEADERS) || Event(FRAME_HEADERS, [], 0) in events
      ensures events == [] || events == [Event(kind, [], 0)]
    {
      hide Header, OneByte, Delivered, Flat, GetVarint;
      ok, used, events := false, 0, [];
      ghost var got := hdr[..hlen];
      var take := HDR_MAX - hlen;
      if take > |buf| {
        take := |buf|;
      }
      Collect(buf[..take]);
      var have := hlen + take;
      HeaderOutcome(got, buf, take);
      HeaderNone();
      var n1, frameKind := ReadVarint(hdr[..have]);
      var n2, flen := 0, 0;
      if n1 > 0 {
        n2, flen := ReadVarint(hdr[..have][n1..]);
      }
      HeaderReads(hdr[..have], n1, frameKind, n2, flen);
      if n1 == 0 || n2 == 0 {
        if have == HDR_MAX {
          assert false;
          return;
        }
        hlen := have;
        return true, take, [];
      }
      used := n1 + n2 - hlen;
      hlen, kind, remain, inPayload := 0, frameKind, flen, true;
      if frameKind == FRAME_HEADERS {
        seenHeaders := true;
      }
      ok, events := true, [];
      if flen == 0 {
        inPayload := false;
        events := [Event(frameKind, [], flen)];
        assert hdr[..0] == [];
      }
    }

    /** Hands on a piece of payload; a callback that stops the parser leaves it where it was. */
    method TakePayload(buf: seq<Byte>, stop: bool) returns (used: nat, e: Event)
      requires Valid() && inPayload && |buf| > 0
      modifies this
      ensures Valid() && 0 < used <= |buf| && kind == old(kind) && seenHeaders == old(seenHeaders)
      ensures e == Event(old(kind), buf[..used], old(remain)) && e.Proper()
      ensures Delivered(old(State()), buf[..used]).1 == Tokens(e)
      ensures State() == if stop then old(State()) else Delivered(old(State()), buf[..used]).0
    {
      hide Header, OneByte;
      used := if remain < |buf| then remain else |buf|;
      e := Event(kind, buf[..used], remain);
      DeliverPayload(kind, remain, buf[..used]);
      HeaderNone();
      if stop {
        return;
      }
      remain := remain - used;
      if remain == 0 {
        inPayload := false;
        assert hdr[..hlen] == [];
      }
    }

    /**
      h3_parse, with a callback that accepts `patience` calls: the events are its calls.  If it does
      not run out, what is delivered is the byte-by-byte parse of the input; if it does, the calls made
      are the beginning of that.  The refusal of a header longer than any valid one is never reached,
      and the bytes taken from this chunk for a header are never negative.
      */
    method Parse(input: seq<Byte>, patience: nat) returns (ok: bool, events: seq<Event>)
      requires Valid()
      modifies this, hdr
      ensures Valid() && AllProper(events)
      ensures ok <==> |events| <= patience
      ensures ok ==> Delivered(old(State()), input) == (State(), Flat(events))
      ensures !ok ==> |events| == patience + 1 && Flat(events) <= Delivered(old(State()), input).1
      ensures seenHeaders <==>
                old(seenHeaders) || (inPayload && kind == FRAME_HEADERS) || SomeHeaders(events)
    {
      hide Header, OneByte, Delivered, Flat, Tokens;
      events := [];
      NothingYet(State());
      var buf := input;
      ghost var done: seq<Byte> := [];
      while |buf| > 0
        invariant Valid() && AllProper(events) && |events| <= patience
        invariant done + buf == input
        invariant Delivered(old(State()), done) == (State(), Flat(events))
        invariant seenHeaders <==>
                    old(seenHeaders) || (inPayload && kind == FRAME_HEADERS) || SomeHeaders(events)
        decreases |buf|
      {
        var used, more;
        ghost var sofar := events;
        if inPayload {
          var e;
          used, e := TakePayload(buf, |events| == patience);
          more := [e];
          OneEvent(e);
        } else {
          ok, used, more := TakeHeader(buf);
          if !ok {
            return;
          }
        }
        events := events + more;
        FlatAppend(sofar, more);
        HeadersAppend(sofar, more);
        DeliveredSplit(old(State()), done, buf[..used]);
        done := done + buf[..used];
        buf := buf[used..];
        if |events| > patience {
          DeliveredSplit(old(State()), done, buf);
          assert done + buf == input;
          return false, events;
        }
      }
      assert done == input;
      ok := true;
    }
  }

  predicate AllProper(events: seq<Event>) {
    forall i :: 0 <= i < |events| ==> events[i].Proper()
  }

  predicate SomeHeaders(events: seq<Event>) {
    exists i :: 0 <= i < |events| && events[i].kind == FRAME_HEADERS
  }

  lemma HeadersAppend(a: seq<Event>, b: seq<Event>)
    ensures SomeHeaders(a + b) <==> SomeHeaders(a) || SomeHeaders(b)
  {
    forall i | 0 <= i < |a| && a[i].kind == FRAME_HEADERS ensures SomeHeaders(a + b) {
      assert (a + b)[i] == a[i];
    }
    forall i | 0 <= i < |b| && b[i].kind == FRAME_HEADERS ensures SomeHeaders(a + b) {
      assert (a + b)[|a| + i] == b[i];
    }
  }

  lemma OneEvent(e: Event)
    ensures Flat([e]) == Tokens(e) && (SomeHeaders([e]) <==> e.kind == FRAME_HEADERS)
  {
    FlatSnoc([], e);
    assert [] + [e] == [e] && [e][0] == e;
  }

  /** What `take` more bytes do to a header of which `got` has come. */
  lemma HeaderOutcome(got: seq<Byte>, buf: seq<Byte>, take: nat)
    requires Header(got) == None && take <= |buf|
    ensures Header([]) == None
    ensures var all := got + buf[..take];
            match Header(all)
            case None => |all| < HDR_MAX && Delivered(InHeader(got), buf[..take]) == (InHeader(all), Flat([]))
            case Some((kind, flen, n)) =>
              |got| < n <= |all| &&
              Delivered(InHeader(got), buf[..n - |got|])
              == if flen == 0 then (InHeader([]), Flat([Event(kind, [], 0)])) else (InPayload(kind, flen), Flat([]))
  {
    hide Header, OneByte, Delivered, Tokens;
    HeaderNone();
    var all := got + buf[..take];
    match Header(all)
    case None =>
      DeliverHeaderPart(got, buf[..take]);
    case Some((kind, flen, n)) =>
      HeaderExact(all, |got|);
      assert all[..|got|] == got;
      HeaderExact(all, n);
      assert all[..n] == got + buf[..n - |got|];
      DeliverHeader(got, buf[..n - |got|]);
      EmptyEvent(kind);
  }

  lemma EmptyEvent(kind: nat)
    ensures Flat([Event(kind, [], 0)]) == [EmptyFrame(kind)]
  {
    OneEvent(Event(kind, [], 0));
  }

  lemma NothingYet(w: Where)
    requires Sane(w)
    ensures Delivered(w, []) == (w, Flat([]))
  {
  }

  lemma HeaderNone()
    ensures Header([]) == None
  {
  }

  lemma HeaderReads(buf: seq<Byte>, n1: nat, kind: nat, n2: nat, flen: nat)
    requires n1 == 0 <==> GetVarint(buf) == None
    requires n1 > 0 ==> GetVarint(buf) == Some((kind, n1)) && n1 <= |buf| && (n2 == 0 <==> GetVarint(buf[n1..]) == None)
    requires n1 > 0 && n2 > 0 ==> GetVarint(buf[n1..]) == Some((flen, n2))
    ensures Header(buf) == if n1 == 0 || n2 == 0 then None else Some((kind, flen, n1 + n2))
  {
  }

  lemma {:induction false} FlatAppend(a: seq<Event>, b: seq<Event>)
    ensures Flat(a + b) == Flat(a) + Flat(b)
  {
    hide Tokens;
    if b == [] {
      assert a + b == a;
    } else {
      var n := |b| - 1;
      FlatAppend(a, b[..n]);
      assert (a + b)[..|a + b| - 1] == a + b[..n];
    }
  }

  // ---------- Whole streams ----------

  /** What a sequence of calls delivers. */
  function DeliveredInChunks(w: Where, chunks: seq<seq<Byte>>): (r: (Where, seq<Token>))
    requires Sane(w)
    decreases |chunks|
  {
    if chunks == [] then (w, [])
    else
      var (mid, first) := Delivered(w, chunks[0]);
      var (end, rest) := DeliveredInChunks(mid, chunks[1..]);
      (end, first + rest)
  }

  /** However the stream is cut into calls, the same is delivered. */
  lemma {:induction false} ChunksDoNotMatter(w: Where, chunks: seq<seq<Byte>>)
    requires Sane(w)
    ensures DeliveredInChunks(w, chunks) == Delivered(w, Joined(chunks))
    decreases |chunks|
  {
    hide OneByte, Sane;
    if chunks != [] {
      DeliveredSplit(w, chunks[0], Joined(chunks[1..]));
      ChunksDoNotMatter(Delivered(w, chunks[0]).0, chunks[1..]);
    }
  }

  datatype Frame = Frame(kind: nat, payload: seq<Byte>)

  predicate Encodable(f: Frame) {
    f.kind < TWO62 && |f.payload| < TWO62
  }

  function FrameBytes(f: Frame): seq<Byte>
    requires Encodable(f)
  {
    VarintBytes(f.kind) + VarintBytes(|f.payload|) + f.payload
  }

  function StreamBytes(fs: seq<Frame>): seq<Byte>
    requires forall f :: f in fs ==> Encodable(f)
  {
    if fs == [] then [] else FrameBytes(fs[0]) + StreamBytes(fs[1..])
  }

  function StreamTokens(fs: seq<Frame>): seq<Token> {
    if fs == [] then [] else FrameTokens(fs[0]) + StreamTokens(fs[1..])
  }

  function FrameTokens(f: Frame): seq<Token> {
    Tokens(Event(f.kind, f.payload, |f.payload|))
  }

  lemma FrameReadBack(f: Frame)
    requires Encodable(f)
    ensures Delivered(InHeader([]), FrameBytes(f)) == (InHeader([]), FrameTokens(f))
  {
    hide GetVarint, VarintBytes, OneByte, Delivered;
    HeaderNone();
    var a, b := VarintBytes(f.kind), VarintBytes(|f.payload|);
    var head := a + b;
    VarintReadBack(f.kind, b);
    VarintReadBack(|f.payload|, []);
    assert b + [] == b;
    assert head[|a|..] == b;
    assert Header(head) == Some((f.kind, |f.payload|, |head|));
    assert [] + head == head;
    DeliverHeader([], head);
    assert FrameBytes(f) == head + f.payload;
    DeliveredSplit(InHeader([]), head, f.payload);
    if f.payload == [] {
      NothingYet(InHeader([]));
      assert Flat([]) == [];
    } else {
      DeliverPayload(f.kind, |f.payload|, f.payload);
    }
    NoTokens(FrameTokens(f));
  }

  /** The bytes of a stream of frames are delivered frame by frame. */
  lemma {:induction false} StreamDelivered(fs: seq<Frame>)
    requires forall f :: f in fs ==> Encodable(f)
    ensures Delivered(InHeader([]), StreamBytes(fs)) == (InHeader([]), StreamTokens(fs))
  {
    hide FrameBytes, OneByte, Header, FrameTokens;
    HeaderNone();
    if fs != [] {
      FrameReadBack(fs[0]);
      StreamDelivered(fs[1..]);
      DeliveredSplit(InHeader([]), FrameBytes(fs[0]), StreamBytes(fs[1..]));
    }
  }

  // ---------- What the callback can make of its calls ----------

  /** Frames that are whole, and the payload so far of the one that is not. */
  datatype Received = Received(frames: seq<Frame>, open: seq<Byte>)

  const NOTHING := Received([], [])

  /** A callback that gathers payload until a call ends the frame. */
  function OnEvent(r: Received, e: Event): Received {
    var payload := r.open + e.payload;
    if e.Ends() then Received(r.frames + [Frame(e.kind, payload)], []) else r.(open := payload)
  }

  function Gathered(r: Received, events: seq<Event>): Received {
    if events == [] then r else OnEvent(Gathered(r, events[..|events| - 1]), events[|events| - 1])
  }

  function OnToken(r: Received, t: Token): Received {
    match t
    case EmptyFrame(kind) => Received(r.frames + [Frame(kind, r.open)], [])
    case PayloadByte(kind, b, last) =>
      if last then Received(r.frames + [Frame(kind, r.open + [b])], []) else r.(open := r.open + [b])
  }

  /** The frames that tokens make up. */
  function Made(r: Received, ts: seq<Token>): Received {
    if ts == [] then r else OnToken(Made(r, ts[..|ts| - 1]), ts[|ts| - 1])
  }

  lemma {:induction false} MadeAppend(r: Received, a: seq<Token>, b: seq<Token>)
    ensures Made(r, a + b) == Made(Made(r, a), b)
  {
    hide OnToken;
    if b == [] {
      assert a + b == a;
    } else {
      var n := |b| - 1;
      MadeAppend(r, a, b[..n]);
      assert (a + b)[..|a + b| - 1] == a + b[..n];
    }
  }

  lemma {:induction false} MadeOpen(r: Received, kind: nat, bytes: seq<Byte>)
    ensures Made(r, Tagged(kind, bytes, false)) == r.(open := r.open + bytes)
    decreases |bytes|
  {
    if bytes == [] {
      assert r.open + bytes == r.open;
    } else {
      var n := |bytes| - 1;
      MadeOpen(r, kind, bytes[..n]);
      var ts := Tagged(kind, bytes, false);
      assert ts[..n] == Tagged(kind, bytes[..n], false);
      assert r.open + bytes[..n] + [bytes[n]] == r.open + bytes;
    }
  }

  /** One call is the bytes it carries. */
  lemma MadeEvent(r: Received, e: Event)
    requires e.Proper()
    ensures Made(r, Tokens(e)) == OnEvent(r, e)
  {
    if e.payload == [] {
      assert Made(r, [EmptyFrame(e.kind)]) == OnToken(Made(r, []), EmptyFrame(e.kind));
      assert r.open + [] == r.open;
    } else if e.Ends() {
      var n := |e.payload| - 1;
      MadeOpen(r, e.kind, e.payload[..n]);
      var ts := Tagged(e.kind, e.payload, true);
      assert ts[..n] == Tagged(e.kind, e.payload[..n], false);
      assert r.open + e.payload[..n] + [e.payload[n]] == r.open + e.payload;
    } else {
      MadeOpen(r, e.kind, e.payload);
    }
  }

  /** The callback finds the frames that the bytes it is shown make up, however they come to it. */
  lemma {:induction false} GatheredIsMade(r: Received, events: seq<Event>)
    requires AllProper(events)
    ensures Gathered(r, events) == Made(r, Flat(events))
  {
    hide Tokens, OnEvent, OnToken;
    if events != [] {
      var n := |events| - 1;
      GatheredIsMade(r, events[..n]);
      MadeAppend(r, Flat(events[..n]), Tokens(events[n]));
      MadeEvent(Gathered(r, events[..n]), events[n]);
    }
  }

  lemma FrameMade(r: Received, f: Frame)
    requires r.open == []
    ensures Made(r, FrameTokens(f)) == Received(r.frames + [f], [])
  {
    MadeEvent(r, Event(f.kind, f.payload, |f.payload|));
    assert [] + f.payload == f.payload;
  }

  /** The tokens of a stream make up its frames again, so they tell any two streams apart. */
  lemma {:induction false} StreamMade(r: Received, fs: seq<Frame>)
    requires r.open == []
    ensures Made(r, StreamTokens(fs)) == Received(r.frames + fs, [])
    decreases |fs|
  {
    hide FrameTokens;
    if fs == [] {
      assert r.frames + fs == r.frames;
    } else {
      FrameMade(r, fs[0]);
      MadeAppend(r, FrameTokens(fs[0]), StreamTokens(fs[1..]));
      StreamMade(Received(r.frames + [fs[0]], []), fs[1..]);
      assert r.frames + [fs[0]] + fs[1..] == r.frames + fs;
    }
  }

  lemma TokensTellFramesApart(fs: seq<Frame>, gs: seq<Frame>)
    requires StreamTokens(fs) == StreamTokens(gs)
    ensures fs == gs
  {
    StreamMade(NOTHING, fs);
    StreamMade(NOTHING, gs);
    assert [] + fs == fs && [] + gs == gs;
  }

  /** A stream of frames, cut up in any way, comes out as exactly those frames. */
  lemma StreamReadBack(fs: seq<Frame>, chunks: seq<seq<Byte>>)
    requires (forall f :: f in fs ==> Encodable(f)) && Joined(chunks) == StreamBytes(fs)
    ensures Header([]) == None
    ensures DeliveredInChunks(InHeader([]), chunks) == (InHeader([]), StreamTokens(fs))
    ensures Made(NOTHING, DeliveredInChunks(InHeader([]), chunks).1) == Received(fs, [])
  {
    hide Delivered, StreamBytes, Made, Header, StreamTokens;
    HeaderNone();
    ChunksDoNotMatter(InHeader([]), chunks);
    StreamDelivered(fs);
    StreamMade(NOTHING, fs);
    assert [] + fs == fs;
  }

  lemma NoChunks(w: Where, chunks: seq<seq<Byte>>)
    requires Sane(w) && chunks == []
    ensures DeliveredInChunks(w, chunks) == (w, Flat([]))
  {
  }

  lemma ChunksSnoc(w: Where, chunks: seq<seq<Byte>>, chunk: seq<Byte>)
    requires Sane(w)
    ensures var (mid, first) := DeliveredInChunks(w, chunks);
            && Sane(mid)
            && DeliveredInChunks(w, chunks + [chunk]) == (Delivered(mid, chunk).0, first + Delivered(mid, chunk).1)
  {
    hide OneByte, Sane, Delivered;
    ChunksDoNotMatter(w, chunks);
    ChunksDoNotMatter(w, chunks + [chunk]);
    JoinedSnoc(chunks, chunk);
    DeliveredSplit(w, Joined(chunks), chunk);
  }

  lemma {:induction false} FewTokens(w: Where, bytes: seq<Byte>)
    requires Sane(w)
    ensures |Delivered(w, bytes).1| <= |bytes|
  {
    hide Header, Sane;
    if bytes != [] {
      FewTokens(w, bytes[..|bytes| - 1]);
    }
  }

  lemma {:induction false} SomeTokens(events: seq<Event>)
    ensures |events| <= |Flat(events)|
  {
    if events != [] {
      SomeTokens(events[..|events| - 1]);
    }
  }

  /** There are no more calls than bytes. */
  lemma EnoughPatience(w: Where, input: seq<Byte>, events: seq<Event>, ok: bool)
    requires Sane(w) && (ok || Flat(events) <= Delivered(w, input).1)
    ensures ok || |events| <= |input|
  {
    FewTokens(w, input);
    SomeTokens(events);
  }

  /** The parser called chunk by chunk, with a callback that gathers frames. */
  method ParseChunks(chunks: seq<seq<Byte>>, ghost fs: seq<Frame>) returns (events: seq<Event>)
    requires forall f :: f in fs ==> Encodable(f)
    ensures AllProper(events) && Header([]) == None
    ensures Flat(events) == DeliveredInChunks(InHeader([]), chunks).1
    ensures Joined(chunks) == StreamBytes(fs) ==> Gathered(NOTHING, events) == Received(fs, [])
  {
    hide Header, Delivered, Flat, OneByte, Made, Gathered, StreamBytes, StreamTokens;
    HeaderNone();
    var p := new Parser();
    events := [];
    NoChunks(InHeader([]), chunks[..0]);
    for i := 0 to |chunks|
      invariant fresh(p) && fresh(p.hdr) && p.Valid() && AllProper(events)
      invariant DeliveredInChunks(InHeader([]), chunks[..i]) == (p.State(), Flat(events))
    {
      ghost var before := p.State();
      ghost var sofar := events;
      var ok, more := p.Parse(chunks[i], |chunks[i]|);
      EnoughPatience(before, chunks[i], more, ok);
      ChunksSnoc(InHeader([]), chunks[..i], chunks[i]);
      assert chunks[..i + 1] == chunks[..i] + [chunks[i]];
      FlatAppend(sofar, more);
      events := events + more;
    }
    assert chunks[..|chunks|] == chunks;
    GatheredIsMade(NOTHING, events);
    if Joined(chunks) == StreamBytes(fs) {
      StreamReadBack(fs, chunks);
    }
  }
}
