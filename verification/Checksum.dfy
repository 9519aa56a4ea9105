/**
  The Internet checksum of core/tincd/src/diag.c (RFC 1071): diag_inet_checksum, diag_tcp_checksum,
  and the headers diag_tcp_send_segment fills in with them.
  */
module Checksum {
  import opened Bits

  const FFFF: nat := 0xffff
  const UINT32: nat := 0x1_0000_0000

  type Word = w: int | 0 <= w <= 0xffff witness 0

  /** Two bytes as the host reads them: `big` is the byte order of the host. */
  function HostWord(big: bool, a: Byte, b: Byte): Word {
    if big then 256 * a + b else a + 256 * b
  }

  /** The words of `data`, a last odd byte counted as it is. */
  function Sum(big: bool, data: seq<Byte>): nat {
    if |data| >= 2 then HostWord(big, data[0], data[1]) + Sum(big, data[2..])
    else if |data| == 1 then data[0]
    else 0
  }

  /** Carries folded back in until 16 bits are left. */
  function Fold(x: nat): (r: Word) {
    if x <= FFFF then x else Fold(x % 0x1_0000 + x / 0x1_0000)
  }

  function Checksum(big: bool, data: seq<Byte>, prev: Word): Word {
    FFFF - Fold(FFFF - prev + Sum(big, data))
  }

  /** The summing loop, in 32 bits: exact for anything up to 128 KiB. */
  method SumWords(big: bool, data: seq<Byte>, prev: Word) returns (checksum: nat)
    requires |data| <= 0x2_0000
    ensures checksum == FFFF - prev + Sum(big, data)
  {
    checksum := FFFF - prev;
    var i := 0;
    assert data[0..] == data;
    while |data| - i >= 2
      invariant 0 <= i <= |data|
      invariant checksum + Sum(big, data[i..]) == FFFF - prev + Sum(big, data)
      invariant 2 * checksum <= 2 * FFFF + FFFF * i
    {
      assert data[i..][2..] == data[i + 2..];
      var word := HostWord(big, data[i], data[i + 1]);
      assert checksum + word < UINT32;
      checksum := Add32(checksum, word);
      i := i + 2;
    }
    if i < |data| {
      assert data[i..] == [data[i]];
      checksum := Add32(checksum, data[i]);
    }
  }

  /** 32-bit addition. */
  function Add32(a: nat, b: nat): (r: nat)
    ensures a + b < UINT32 ==> r == a + b
  {
    (a + b) % UINT32
  }

  /** diag_inet_checksum */
  method InetChecksum(big: bool, data: seq<Byte>, prev: Word) returns (r: Word)
    requires |data| <= 0x2_0000
    ensures r == Checksum(big, data, prev)
  {
    hide Sum;
    var checksum := SumWords(big, data, prev);
    ghost var total := checksum;
    while checksum / 0x1_0000 > 0
      invariant Fold(checksum) == Fold(total)
      decreases checksum
    {
      checksum := checksum % 0x1_0000 + checksum / 0x1_0000;
    }
    r := FFFF - checksum;
  }

  /** Two bytes more, and the 32-bit sum can overflow. */
  lemma BoundIsTight(big: bool)
    ensures FFFF - 0 + Sum(big, seq(0x2_0002, _ => 0xff)) >= UINT32
  {
    AllOnes(big, 0x1_0001);
  }

  lemma {:induction false} AllOnes(big: bool, n: nat)
    ensures Sum(big, seq(2 * n, _ => 0xff)) == n * FFFF
  {
    var s: seq<Byte> := seq(2 * n, _ => 0xff);
    if n > 0 {
      AllOnes(big, n - 1);
      assert s[2..] == seq(2 * (n - 1), _ => 0xff);
    }
  }

  // ---------- What folding computes ----------

  /** The residue modulo 65535, but 65535 itself for a positive multiple of it. */
  lemma {:induction false} FoldIs(x: nat)
    ensures Fold(x) == if x == 0 then 0 else (x - 1) % FFFF + 1
    decreases x
  {
    if x > FFFF {
      var y := x % 0x1_0000 + x / 0x1_0000;
      FoldIs(y);
      assert x - 1 == FFFF * (x / 0x1_0000) + (y - 1);
      DivUnique(x - 1, FFFF, (x / 0x1_0000) + (y - 1) / FFFF, (y - 1) % FFFF);
    }
  }

  lemma FoldAbsorbs(x: nat, y: nat)
    ensures Fold(Fold(x) + y) == Fold(x + y)
  {
    FoldIs(x);
    FoldIs(x + y);
    FoldIs(Fold(x) + y);
    hide Fold;
    if x > 0 {
      var q, r := (x - 1) / FFFF, (x - 1) % FFFF;
      assert x + y - 1 == q * FFFF + (r + y);
      var d := r + y;
      DivUnique(x + y - 1, FFFF, q + d / FFFF, d % FFFF);
    }
  }

  lemma {:induction false} SumAppend(big: bool, a: seq<Byte>, b: seq<Byte>)
    requires |a| % 2 == 0
    ensures Sum(big, a + b) == Sum(big, a) + Sum(big, b)
  {
    if a == [] {
      assert a + b == b;
    } else {
      SumAppend(big, a[2..], b);
      assert (a + b)[2..] == a[2..] + b;
    }
  }

  /** Summing on from the checksum of an even-length part is summing the whole. */
  lemma Composes(big: bool, a: seq<Byte>, b: seq<Byte>, prev: Word)
    requires |a| % 2 == 0
    ensures Checksum(big, a + b, prev) == Checksum(big, b, Checksum(big, a, prev))
  {
    SumAppend(big, a, b);
    FoldAbsorbs(FFFF - prev + Sum(big, a), Sum(big, b));
  }

  /** What a checksum of 0 says about the sum. */
  lemma ZeroMeans(big: bool, data: seq<Byte>, prev: Word)
    ensures Checksum(big, data, prev) == 0 <==>
              FFFF - prev + Sum(big, data) > 0 && (FFFF - prev + Sum(big, data)) % FFFF == 0
  {
    var x := FFFF - prev + Sum(big, data);
    FoldIs(x);
    hide Fold, Sum;
    if x > 0 {
      var q, r := (x - 1) / FFFF, (x - 1) % FFFF;
      assert x == q * FFFF + (r + 1);
      if r + 1 < FFFF {
        DivUnique(x, FFFF, q, r + 1);
      } else {
        DivUnique(x, FFFF, q + 1, 0);
      }
    }
  }

  // ---------- Filling in and checking ----------

  /** The bytes of `w` in host order. */
  function WordBytes(big: bool, w: Word): (bs: seq<Byte>)
    ensures |bs| == 2 && HostWord(big, bs[0], bs[1]) == w
  {
    if big then [w / 256, w % 256] else [w % 256, w / 256]
  }

  /** `data` with `w` stored at `k`. */
  function Stored(big: bool, data: seq<Byte>, k: nat, w: Word): (r: seq<Byte>)
    requires k + 2 <= |data|
    ensures |r| == |data|
  {
    data[..k] + WordBytes(big, w) + data[k + 2..]
  }

  lemma SumStored(big: bool, data: seq<Byte>, k: nat, w: Word)
    requires k % 2 == 0 && k + 2 <= |data|
    ensures Sum(big, Stored(big, data, k, w)) == Sum(big, data) - HostWord(big, data[k], data[k + 1]) + w
  {
    var a, was, bs, b := data[..k], data[k..k + 2], WordBytes(big, w), data[k + 2..];
    assert data == a + (was + b);
    assert Stored(big, data, k, w) == a + (bs + b);
    SumAppend(big, a, was + b);
    SumAppend(big, a, bs + b);
    SumAppend(big, was, b);
    SumAppend(big, bs, b);
    SumPair(big, was);
    SumPair(big, bs);
  }

  lemma SumPair(big: bool, p: seq<Byte>)
    requires |p| == 2
    ensures Sum(big, p) == HostWord(big, p[0], p[1])
  {
    assert p[2..] == [];
  }

  /** A zeroed checksum field filled with the checksum makes the whole check to 0. */
  lemma FilledChecks(big: bool, data: seq<Byte>, k: nat, prev: Word)
    requires k % 2 == 0 && k + 2 <= |data| && data[k] == 0 && data[k + 1] == 0
    ensures Checksum(big, Stored(big, data, k, Checksum(big, data, prev)), prev) == 0
  {
    var x := FFFF - prev + Sum(big, data);
    var w := Checksum(big, data, prev);
    var filled := Stored(big, data, k, w);
    SumStored(big, data, k, w);
    FoldIs(x);
    ZeroMeans(big, filled, prev);
    hide Sum, Fold, Stored;
    if x > 0 {
      var q, r := (x - 1) / FFFF, (x - 1) % FFFF;
      assert x + w == (q + 1) * FFFF;
      DivUnique(x + w, FFFF, q + 1, 0);
    }
  }

  /** A single altered word is always noticed, unless it is 0 against 65535. */
  lemma OneWordNoticed(big: bool, data: seq<Byte>, k: nat, w: Word, prev: Word)
    requires k % 2 == 0 && k + 2 <= |data|
    requires Checksum(big, data, prev) == 0 && Checksum(big, Stored(big, data, k, w), prev) == 0
    ensures var was := HostWord(big, data[k], data[k + 1]);
            w == was || (w == 0 && was == FFFF) || (w == FFFF && was == 0)
  {
    hide Sum, Fold, Stored, HostWord, Checksum;
    var was := HostWord(big, data[k], data[k + 1]);
    var x := FFFF - prev + Sum(big, data);
    SumStored(big, data, k, w);
    ZeroMeans(big, data, prev);
    ZeroMeans(big, Stored(big, data, k, w), prev);
    BothMultiples(x, was, w);
  }

  /** Two multiples of 65535 that differ by less than two words. */
  lemma BothMultiples(x: int, was: int, w: int)
    requires x % FFFF == 0 && (x - was + w) % FFFF == 0 && 0 <= was <= FFFF && 0 <= w <= FFFF
    ensures w == was || (w == 0 && was == FFFF) || (w == FFFF && was == 0)
  {
    var p, q := x / FFFF, (x - was + w) / FFFF;
    assert w - was == (q - p) * FFFF;
    if q > p + 1 {
      MulAtLeast(q - p - 1, FFFF);
    } else if p > q + 1 {
      MulAtLeast(p - q - 1, FFFF);
    }
  }

  // ---------- Packets ----------

  /** The pseudo-header diag_tcp_checksum sums first. */
  function PseudoHeader(src: seq<Byte>, dst: seq<Byte>, tcpLen: nat): seq<Byte> {
    src + dst + [0, 6, tcpLen / 256 % 256, tcpLen % 256]
  }

  /** diag_tcp_checksum */
  function TcpChecksum(big: bool, src: seq<Byte>, dst: seq<Byte>, tcp: seq<Byte>): Word {
    Checksum(big, tcp, Checksum(big, PseudoHeader(src, dst, |tcp|), FFFF))
  }

  lemma PseudoBytes(src: seq<Byte>, dst: seq<Byte>, n: nat)
    requires |src| == 4 && |dst| == 4
    ensures PseudoHeader(src, dst, n)
            == [src[0], src[1], src[2], src[3], dst[0], dst[1], dst[2], dst[3], 0, 6, n / 256 % 256, n % 256]
  {
  }

  /** The two-step sum is the sum over pseudo-header and segment, and a segment filled in checks to 0. */
  lemma TcpFilledChecks(big: bool, src: seq<Byte>, dst: seq<Byte>, tcp: seq<Byte>)
    requires |src| == 4 && |dst| == 4 && |tcp| >= 18 && tcp[16] == 0 && tcp[17] == 0
    ensures var high, low := |tcp| / 256 % 256, |tcp| % 256;
            var pseudo := [src[0], src[1], src[2], src[3], dst[0], dst[1], dst[2], dst[3], 0, 6, high, low];
            TcpChecksum(big, src, dst, tcp) == Checksum(big, pseudo + tcp, FFFF)
    ensures TcpChecksum(big, src, dst, Stored(big, tcp, 16, TcpChecksum(big, src, dst, tcp))) == 0
  {
    hide Checksum, Sum, Fold;
    Composes(big, PseudoHeader(src, dst, |tcp|), tcp, FFFF);
    PseudoBytes(src, dst, |tcp|);
    FilledChecks(big, tcp, 16, Checksum(big, PseudoHeader(src, dst, |tcp|), FFFF));
  }

  // ---------- Hosts of either byte order ----------

  /** The same two bytes, read on the other host. */
  function Swap(w: Word): Word {
    256 * (w % 256) + w / 256
  }

  /** The bytes at odd places. */
  function OddPlaces(data: seq<Byte>): nat {
    if |data| >= 2 then data[1] + OddPlaces(data[2..]) else 0
  }

  /** The last byte if it stands alone, else zero. */
  function LastOdd(data: seq<Byte>): (b: nat)
    ensures b < 256
  {
    if |data| % 2 == 1 then data[|data| - 1] else 0
  }

  lemma {:induction false} SumOnBoth(data: seq<Byte>)
    ensures Sum(true, data) + FFFF * OddPlaces(data) == 256 * Sum(false, data) - 255 * LastOdd(data)
    ensures Sum(true, data) == 0 <==> Sum(false, data) == 0
    ensures Sum(true, data) == 0 ==> LastOdd(data) == 0
  {
    if |data| >= 2 {
      SumOnBoth(data[2..]);
      assert LastOdd(data) == LastOdd(data[2..]);
    }
  }

  /** Folding takes away a multiple of 65535. */
  lemma FoldTakes(x: nat) returns (u: nat)
    ensures x == Fold(x) + FFFF * u && (x > 0 ==> Fold(x) > 0)
  {
    FoldIs(x);
    u := if x == 0 then 0 else (x - 1) / FFFF;
  }

  /**
    The bytes stored are the same on hosts of either byte order if and only if the length is even or
    the last byte is zero: a last odd byte is added as it is, which on a big-endian host is not its
    place as the first byte of a word.
    */
  lemma ByteOrderDoesNotMatter(data: seq<Byte>, prev: Word)
    ensures WordBytes(true, Checksum(true, data, Swap(prev))) == WordBytes(false, Checksum(false, data, prev))
            <==> LastOdd(data) == 0
  {
    hide Sum, Fold, OddPlaces, LastOdd, Swap, WordBytes;
    SwapComplement(prev);
    var x, y := FFFF - Swap(prev) + Sum(true, data), FFFF - prev + Sum(false, data);
    SumOnBoth(data);
    var u := FoldTakes(x);
    var v := FoldTakes(y);
    SameBytes(Fold(x), Fold(y));
    OnBoth(x, y, Fold(x), Fold(y), u, v, OddPlaces(data) + 255 - prev / 256, LastOdd(data));
  }

  lemma SwapComplement(w: Word)
    ensures 256 * (FFFF - w) == FFFF - Swap(w) + FFFF * (255 - w / 256)
    ensures Swap(w) == FFFF <==> w == FFFF
  {
  }

  lemma SameBytes(a: Word, b: Word)
    ensures WordBytes(true, FFFF - a) == WordBytes(false, FFFF - b) <==> a == Swap(b)
  {
    ByteComplement(a);
    ByteComplement(b);
    var s, t := WordBytes(true, FFFF - a), WordBytes(false, FFFF - b);
    assert s == t <==> s[0] == t[0] && s[1] == t[1];
  }

  lemma ByteComplement(w: Word)
    ensures (FFFF - w) / 256 == 255 - w / 256 && (FFFF - w) % 256 == 255 - w % 256
  {
  }

  lemma OnBoth(x: nat, y: nat, a: Word, b: Word, u: nat, v: nat, m: int, last: nat)
    requires x + FFFF * m == 256 * y - 255 * last && last < 256
    requires x == a + FFFF * u && y == b + FFFF * v && (x > 0 ==> a > 0) && (y > 0 ==> b > 0)
    requires (x == 0 <==> y == 0) && (x == 0 ==> last == 0)
    ensures a == Swap(b) <==> last == 0
  {
    assert 256 * b == Swap(b) + FFFF * (b / 256);
    var z := 256 * v - u - m + b / 256;
    assert a - Swap(b) == FFFF * z - 255 * last;
  }
}
