/**
  The growing byte buffer of core/tincd/src/h3.c and its prefixed integers (section 5.1 of RFC 7541):
  qp_int, qd_int and qd_int_len.
  */
module PrefixInt {
  import opened Wrappers
  import opened Bits

  const UINT32_MAX: nat := 0xffff_ffff

  /** fbuf_t: a heap buffer that doubles when full. */
  class FieldBuffer {
    var data: array<Byte>
    var len: nat

    ghost predicate Valid()
      reads this
    {
      len <= data.Length
    }

    ghost function Contents(): (s: seq<Byte>)
      requires Valid()
      reads this, data
    {
      data[..len]
    }

    constructor ()
      ensures Valid() && Contents() == [] && fresh(data)
    {
      data, len := new Byte[0], 0;
    }

    /** fb_put */
    method Put(bytes: seq<Byte>)
      requires Valid()
      modifies this, data
      ensures Valid() && (data == old(data) || fresh(data))
      ensures Contents() == old(Contents()) + bytes
    {
      if len + |bytes| > data.Length {
        var bigger := new Byte[(len + |bytes|) * 2 + 64];
        forall i | 0 <= i < len {
          bigger[i] := data[i];
        }
        data := bigger;
      }
      forall i | 0 <= i < |bytes| {
        data[len + i] := bytes[i];
      }
      len := len + |bytes|;
      assert data[..len] == old(data[..len]) + bytes;
    }

    /** qp_int: `v` in a `bits`-bit prefix below `flags`. */
    method PutInt(flags: Byte, bits: nat, v: nat)
      requires Valid() && PrefixFree(flags, bits)
      modifies this, data
      ensures Valid() && (data == old(data) || fresh(data))
      ensures Contents() == old(Contents()) + IntBytes(flags, bits, v)
    {
      hide Pow2, PrefixFree, Septets, Contents, Valid;
      PrefixFits(flags, bits);
      var max := Pow2(bits) - 1;
      if v < max {
        Put([flags + v]);
        return;
      }
      Put([flags + max]);
      PutSeptets(v - max);
    }

    /** The loop of qp_int. */
    method PutSeptets(v: nat)
      requires Valid()
      modifies this, data
      ensures Valid() && (data == old(data) || fresh(data))
      ensures Contents() == old(Contents()) + Septets(v)
    {
      hide Contents, Valid;
      var rest := v;
      ghost var sent: seq<Byte> := [];
      while rest >= 0x80
        invariant Valid() && (data == old(data) || fresh(data))
        invariant Contents() == old(Contents()) + sent
        invariant sent + Septets(rest) == Septets(v)
      {
        var b := 0x80 + rest % 0x80;
        Put([b]);
        assert sent + ([b] + Septets(rest / 0x80)) == (sent + [b]) + Septets(rest / 0x80);
        sent := sent + [b];
        rest := rest / 0x80;
      }
      Put([rest]);
    }
  }

  /** `flags` leaves the low `bits` bits clear. */
  predicate PrefixFree(flags: Byte, bits: nat) {
    1 <= bits <= 8 && flags % Pow2(bits) == 0
  }

  lemma PrefixFits(flags: Byte, bits: nat)
    requires PrefixFree(flags, bits)
    ensures flags + Pow2(bits) - 1 < 256 && Pow2(bits) <= 256
  {
    Pow2Values();
  }

  /** Groups of seven bits, least significant first, the last with its top bit clear. */
  function Septets(v: nat): (bs: seq<Byte>)
    ensures bs != []
  {
    if v >= 0x80 then [0x80 + v % 0x80] + Septets(v / 0x80) else [v]
  }

  function IntBytes(flags: Byte, bits: nat, v: nat): (bs: seq<Byte>)
    requires PrefixFree(flags, bits)
    ensures bs != []
  {
    PrefixFits(flags, bits);
    var max := Pow2(bits) - 1;
    if v < max then [flags + v] else [flags + max] + Septets(v - max)
  }

  /** The number groups of seven bits stand for, least significant first. */
  function Weighted(bs: seq<Byte>): nat {
    if bs == [] then 0 else bs[0] % 0x80 + 0x80 * Weighted(bs[1..])
  }

  lemma {:induction false} SeptetsMean(v: nat)
    ensures Weighted(Septets(v)) == v
    ensures forall i :: 0 <= i < |Septets(v)| ==> (Septets(v)[i] >= 0x80 <==> i < |Septets(v)| - 1)
  {
    if v >= 0x80 {
      SeptetsMean(v / 0x80);
    } else {
      assert Septets(v)[1..] == [];
    }
  }

  /** What the bytes of an integer are, as section 5.1 of RFC 7541 has them. */
  lemma IntMeans(flags: Byte, bits: nat, v: nat)
    requires PrefixFree(flags, bits)
    ensures var bs, max := IntBytes(flags, bits, v), Pow2(bits) - 1;
            if v < max then bs == [flags + v]
            else
              && bs[0] == flags + max && v == max + Weighted(bs[1..])
              && forall i :: 1 <= i < |bs| ==> (bs[i] >= 0x80 <==> i < |bs| - 1)
  {
    hide Pow2, Septets, Weighted;
    PrefixFits(flags, bits);
    if v >= Pow2(bits) - 1 {
      SeptetsMean(v - (Pow2(bits) - 1));
      assert IntBytes(flags, bits, v)[1..] == Septets(v - (Pow2(bits) - 1));
    }
  }

  lemma FirstByteOf(flags: Byte, bits: nat, v: nat)
    requires PrefixFree(flags, bits)
    ensures flags <= IntBytes(flags, bits, v)[0] < flags + Pow2(bits)
  {
    hide Septets;
    PrefixFits(flags, bits);
  }

  /** A product the proofs need not multiply out. */
  function Times(a: nat, b: nat): nat {
    a * b
  }

  /** The continuation of a prefixed integer at `i`, `k` of at most five bytes read: value and next index. */
  function GetSeptets(buf: seq<Byte>, i: nat, k: nat, scale: nat, acc: nat): (r: Option<(nat, nat)>)
    ensures r.Some? ==> i < r.value.1 <= |buf| && r.value.1 <= i + 5 - k && r.value.0 <= UINT32_MAX
    decreases 5 - k
  {
    if k >= 5 || i >= |buf| then None
    else
      var acc' := acc + Times(buf[i] % 0x80, scale);
      if buf[i] < 0x80 then (if acc' <= UINT32_MAX then Some((acc', i + 1)) else None)
      else GetSeptets(buf, i + 1, k + 1, scale * 0x80, acc')
  }

  /** The low `bits` bits of a byte. */
  function Low(b: Byte, bits: nat): nat {
    b % Pow2(bits)
  }

  function GetInt(buf: seq<Byte>, i: nat, bits: nat): (r: Option<(nat, nat)>)
    requires 1 <= bits <= 8
    ensures r.Some? ==> i < r.value.1 <= |buf| && r.value.1 <= i + 6 && r.value.0 <= UINT32_MAX
  {
    if i >= |buf| then None
    else
      Pow2Values();
      var max := Pow2(bits) - 1;
      var v := Low(buf[i], bits);
      if v < max then Some((v, i + 1)) else GetSeptets(buf, i + 1, 0, 1, v)
  }

  lemma IntStart(buf: seq<Byte>, i: nat, bits: nat)
    requires 1 <= bits <= 8
    ensures Pow2(bits) > 0
    ensures GetInt(buf, i, bits)
            == if i >= |buf| then None
               else if Low(buf[i], bits) < Pow2(bits) - 1 then Some((Low(buf[i], bits), i + 1))
               else GetSeptets(buf, i + 1, 0, 1, Low(buf[i], bits))
  {
  }

  /** qd_int */
  method ReadInt(buf: seq<Byte>, start: nat, bits: nat) returns (ok: bool, i: nat, v: nat)
    requires 1 <= bits <= 8
    ensures ok <==> GetInt(buf, start, bits).Some?
    ensures ok ==> GetInt(buf, start, bits) == Some((v, i))
  {
    hide Times, Pow2, Low, GetInt;
    IntStart(buf, start, bits);
    i, v := start, 0;
    if i >= |buf| {
      return false, i, v;
    }
    var max := Pow2(bits) - 1;
    v := Low(buf[i], bits);
    i := i + 1;
    if v < max {
      return true, i, v;
    }
    var shift, scale: nat := 0, 1;
    ghost var k := 0;
    while shift <= 28
      invariant shift == 7 * k && k <= 5
      invariant GetInt(buf, start, bits) == GetSeptets(buf, i, k, scale, v)
    {
      if i >= |buf| {
        return false, i, v;
      }
      var b := buf[i];
      i := i + 1;
      v := v + Times(b % 0x80, scale);
      if b < 0x80 {
        return v <= UINT32_MAX, i, v;
      }
      shift, scale := shift + 7, scale * 0x80;
      k := k + 1;
    }
    ok := false;
  }

  // ---------- Reading back what was written ----------

  function Scale(k: nat): nat {
    if k == 0 then 1 else Scale(k - 1) * 0x80
  }

  lemma SplitSeptet(v: nat, scale: nat)
    ensures Times(v, scale) == Times(v / 0x80, scale * 0x80) + Times(v % 0x80, scale)
  {
    var q, d := v / 0x80, v % 0x80;
    assert v == 0x80 * q + d;
    assert (0x80 * q) * scale == q * (scale * 0x80);
    assert (0x80 * q + d) * scale == (0x80 * q) * scale + d * scale;
  }

  lemma SeptetsTooFar(v: nat, acc: nat)
    requires v > 0
    ensures acc + Times(v, Scale(5)) > UINT32_MAX
  {
    assert Scale(2) == 0x4000 && Scale(3) == 0x20_0000 && Scale(5) == 0x8_0000_0000;
  }

  lemma {:induction false} SeptetsReadBack(pre: seq<Byte>, post: seq<Byte>, v: nat, k: nat, acc: nat)
    requires k <= 5 && (k == 5 ==> v > 0)
    ensures var whole := acc + Times(v, Scale(k));
            GetSeptets(pre + Septets(v) + post, |pre|, k, Scale(k), acc)
            == if whole <= UINT32_MAX then Some((whole, |pre| + |Septets(v)|)) else None
    decreases 5 - k
  {
    hide Times;
    var buf := pre + Septets(v) + post;
    if k == 5 {
      SeptetsTooFar(v, acc);
    } else {
      assert buf[|pre|] == Septets(v)[0];
      if v >= 0x80 {
        SplitSeptet(v, Scale(k));
        assert buf == (pre + [Septets(v)[0]]) + Septets(v / 0x80) + post;
        assert Scale(k + 1) == Scale(k) * 0x80;
        SeptetsReadBack(pre + [Septets(v)[0]], post, v / 0x80, k + 1, acc + Times(v % 0x80, Scale(k)));
      }
    }
  }

  /** qd_int reads back exactly the integers up to 2^32 - 1, wherever they stand and whatever follows. */
  lemma IntReadBack(pre: seq<Byte>, post: seq<Byte>, flags: Byte, bits: nat, v: nat)
    requires PrefixFree(flags, bits)
    ensures GetInt(pre + IntBytes(flags, bits, v) + post, |pre|, bits)
            == if v <= UINT32_MAX then Some((v, |pre| + |IntBytes(flags, bits, v)|)) else None
  {
    hide Times, Pow2, Septets, GetSeptets, Low;
    PrefixFits(flags, bits);
    var max := Pow2(bits) - 1;
    var bs := IntBytes(flags, bits, v);
    var buf := pre + bs + post;
    assert buf[|pre|] == bs[0];
    if v < max {
      LowBits(flags, bits, v);
    } else {
      LowBits(flags, bits, max);
      assert buf == (pre + [bs[0]]) + Septets(v - max) + post;
      SeptetsReadBack(pre + [bs[0]], post, v - max, 0, max);
      TimesOne(v - max);
    }
  }

  lemma TimesOne(n: nat)
    ensures Scale(0) == 1 && Times(n, 1) == n
  {
  }

  lemma LowBits(flags: Byte, bits: nat, v: nat)
    requires PrefixFree(flags, bits) && v < Pow2(bits)
    ensures flags + v < 256 && Low(flags + v, bits) == v
  {
    PrefixFits(flags, bits);
    hide Pow2;
    AboveMultiple(flags, Pow2(bits), v);
  }

  lemma AboveMultiple(x: nat, p: nat, v: nat)
    requires p > 0 && x % p == 0 && v < p
    ensures (x + v) % p == v
  {
    Multiple(x, p);
    DivUnique(x + v, p, x / p, v);
  }

  lemma Multiple(x: nat, p: nat)
    requires p > 0 && x % p == 0
    ensures x == (x / p) * p
  {
  }

  // ---------- How long an integer is going to be ----------

  /** What a scan of an unfinished buffer can say. */
  datatype Scan = NeedMore | Bad | Whole(len: nat)

  /** qd_int_len */
  method IntLen(buf: seq<Byte>, i: nat, bits: nat) returns (r: Scan, v: nat)
    requires 1 <= bits <= 8
    ensures r == ScanInt(buf, i, bits)
    ensures r.Whole? ==> GetInt(buf, i, bits) == Some((v, i + r.len))
  {
    var ok, j;
    ok, j, v := ReadInt(buf, i, bits);
    if ok {
      return Whole(j - i), v;
    }
    j := i + 1;
    while j < |buf| && j < i + 6
      invariant i + 1 <= j <= i + 6 && (j <= |buf| || j == i + 1)
      invariant forall k :: i < k < j && k < |buf| ==> buf[k] >= 0x80
    {
      if buf[j] < 0x80 {
        return Bad, v;
      }
      j := j + 1;
    }
    r := if j < i + 6 then NeedMore else Bad;
  }

  function ScanInt(buf: seq<Byte>, i: nat, bits: nat): (r: Scan)
    requires 1 <= bits <= 8
    ensures r.Whole? ==> 1 <= r.len <= 6 && i + r.len <= |buf|
    ensures r.Whole? ==> GetInt(buf, i, bits).Some? && GetInt(buf, i, bits).value.1 == i + r.len
    ensures r.NeedMore? ==> |buf| < i + 6
  {
    match GetInt(buf, i, bits)
    case Some(g) => Whole(g.1 - i)
    case None =>
      if (exists k :: i < k < |buf| && k < i + 6 && buf[k] < 0x80) || |buf| >= i + 6 then Bad else NeedMore
  }

  /** Of the `n` bytes from `i` on, all are there or one of those there ends the integer. */
  predicate Decided(buf: seq<Byte>, i: nat, n: int) {
    (exists j :: i <= j < |buf| && j < i + n && buf[j] < 0x80) || |buf| >= i + n
  }

  lemma DecidedNext(buf: seq<Byte>, i: nat, n: int)
    ensures Decided(buf, i, n) && n > 0 ==> i < |buf| && (buf[i] >= 0x80 ==> Decided(buf, i + 1, n - 1))
  {
  }

  lemma {:induction false} SeptetsStable(buf: seq<Byte>, more: seq<Byte>, i: nat, k: nat, scale: nat, acc: nat)
    ensures GetSeptets(buf, i, k, scale, acc).Some? ==>
              GetSeptets(buf + more, i, k, scale, acc) == GetSeptets(buf, i, k, scale, acc)
    ensures GetSeptets(buf, i, k, scale, acc) == None && Decided(buf, i, 5 - k) ==>
              GetSeptets(buf + more, i, k, scale, acc) == None
    decreases 5 - k
  {
    hide Times, Decided;
    DecidedNext(buf, i, 5 - k);
    if k < 5 && i < |buf| && buf[i] >= 0x80 {
      SeptetsStable(buf, more, i + 1, k + 1, scale * 0x80, acc + Times(buf[i] % 0x80, scale));
    }
  }

  /** A verdict does not change when more bytes arrive, and enough bytes always bring one. */
  lemma ScanIntStable(buf: seq<Byte>, more: seq<Byte>, i: nat, bits: nat)
    requires 1 <= bits <= 8
    ensures !ScanInt(buf, i, bits).NeedMore? ==>
              && ScanInt(buf + more, i, bits) == ScanInt(buf, i, bits)
              && GetInt(buf + more, i, bits) == GetInt(buf, i, bits)
  {
    Pow2Values();
    if i < |buf| {
      SeptetsStable(buf, more, i + 1, 0, 1, Low(buf[i], bits));
      if exists k :: i < k < |buf| && k < i + 6 && buf[k] < 0x80 {
        var k :| i < k < |buf| && k < i + 6 && buf[k] < 0x80;
        assert (buf + more)[k] < 0x80;
      }
    }
  }

  lemma {:induction false} SeptetsEnd(v: nat)
    ensures Septets(v)[|Septets(v)| - 1] < 0x80
  {
    if v >= 0x80 {
      SeptetsEnd(v / 0x80);
    }
  }

  /** The scan finds exactly the bytes of a written integer, and refuses those that cannot be read. */
  lemma ScanIntBack(pre: seq<Byte>, post: seq<Byte>, flags: Byte, bits: nat, v: nat)
    requires PrefixFree(flags, bits)
    ensures var bs := IntBytes(flags, bits, v);
            ScanInt(pre + bs + post, |pre|, bits) == if v <= UINT32_MAX then Whole(|bs|) else Bad
  {
    hide Pow2, Septets, GetInt;
    IntReadBack(pre, post, flags, bits, v);
    if v > UINT32_MAX {
      LongInt(pre, post, flags, bits, v);
    }
  }

  lemma LongInt(pre: seq<Byte>, post: seq<Byte>, flags: Byte, bits: nat, v: nat)
    requires PrefixFree(flags, bits) && v > UINT32_MAX
    ensures var buf, i := pre + IntBytes(flags, bits, v) + post, |pre|;
            (exists k :: i < k < |buf| && k < i + 6 && buf[k] < 0x80) || |buf| >= i + 6
  {
    hide Pow2;
    PrefixFits(flags, bits);
    var bs := IntBytes(flags, bits, v);
    var rest := Septets(v - (Pow2(bits) - 1));
    SeptetsEnd(v - (Pow2(bits) - 1));
    assert bs == [bs[0]] + rest;
    var buf := pre + bs + post;
    var k := |pre| + |bs| - 1;
    assert buf[k] == rest[|rest| - 1];
  }
}
