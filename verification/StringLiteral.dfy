/** String literals of core/tincd/src/h3.c: qp_string, qp_string_nginx and qd_string. */
module StringLiteral {
  import opened Wrappers
  import opened Bits
  import opened PrefixInt
  import opened Huffman

  function LowerAll(s: seq<Byte>, lower: bool): (r: seq<Byte>)
    ensures |r| == |s| && (NulFree(r) <==> NulFree(s))
  {
    if !lower then s
    else
      var r := seq(|s|, i requires 0 <= i < |s| => Lower(s[i]));
      assert forall i :: 0 <= i < |s| ==> (r[i] == 0 <==> s[i] == 0);
      r
  }

  function BitCount(c: Code, s: seq<Byte>): nat
    requires |c.len| == SYMBOLS
  {
    if s == [] then 0 else BitCount(c, s[..|s| - 1]) + c.len[s[|s| - 1]]
  }

  lemma {:induction false} BitCountIsLength(c: Code, s: seq<Byte>)
    requires ValidCode(c)
    ensures |EncodeBits(c, s)| == BitCount(c, s)
  {
    hide PrefixFreeCode, Canonical;
    if s != [] {
      BitCountIsLength(c, s[..|s| - 1]);
    }
  }

  // ---------- The encoding as bytes ----------

  ghost function FromBits(bits: seq<bool>): (v: nat)
    ensures v < Pow2(|bits|) && ToBits(v, |bits|) == bits
  {
    if bits == [] then 0
    else
      var n := |bits| - 1;
      var high := FromBits(bits[..n]);
      var v := 2 * high + if bits[n] then 1 else 0;
      assert bits == bits[..n] + [bits[n]];
      assert ToBits(v, n + 1) == ToBits(high, n) + [bits[n]];
      v
  }

  /** `bits` in bytes, the last padded with ones. */
  ghost function Pack(bits: seq<bool>): (bs: seq<Byte>)
    ensures exists k: nat :: k < 8 && BytesToBits(bs) == bits + Ones(k)
  {
    Pow2Values();
    if bits == [] then
      assert BytesToBits([]) == [] + Ones(0);
      []
    else if |bits| < 8 then
      var pad := 8 - |bits|;
      var b := FromBits(bits + Ones(pad));
      BytesToBitsOne(b);
      assert BytesToBits([b]) == bits + Ones(pad);
      [b]
    else
      var b, rest := FromBits(bits[..8]), Pack(bits[8..]);
      var k: nat :| k < 8 && BytesToBits(rest) == bits[8..] + Ones(k);
      PackMore(b, bits, rest, k);
      [b] + rest
  }

  lemma PackMore(b: Byte, bits: seq<bool>, rest: seq<Byte>, k: nat)
    requires |bits| >= 8 && ToBits(b, 8) == bits[..8] && BytesToBits(rest) == bits[8..] + Ones(k)
    ensures BytesToBits([b] + rest) == bits + Ones(k)
  {
    hide ToBits, BytesToBits, Ones;
    BytesToBitsOne(b);
    BytesToBitsAppend([b], rest);
    assert bits[..8] + (bits[8..] + Ones(k)) == bits + Ones(k);
  }

  ghost function HuffBytes(c: Code, s: seq<Byte>): (bs: seq<Byte>)
    requires ValidCode(c)
    ensures Encodes(c, bs, s) && |bs| == (BitCount(c, s) + 7) / 8
  {
    BitCountIsLength(c, s);
    var bs := Pack(EncodeBits(c, s));
    var k: nat :| k < 8 && BytesToBits(bs) == EncodeBits(c, s) + Ones(k);
    assert |BytesToBits(bs)| == 8 * |bs|;
    bs
  }

  // ---------- Writing ----------

  /** The prefix widths of the string forms; `flags` leaves the length and the H bit above it clear. */
  predicate StringPrefix(flags: Byte, bits: nat) {
    (bits == 7 && flags == 0) || (bits == 5 && flags % 64 == 0) || (bits == 3 && flags % 16 == 0)
  }

  lemma StringPrefixFits(flags: Byte, bits: nat)
    requires StringPrefix(flags, bits)
    ensures PrefixFree(flags, bits) && flags + Pow2(bits) < 256 && PrefixFree(flags + Pow2(bits), bits)
  {
    Pow2Values();
    hide Pow2;
    if bits == 7 {
      assert flags % 128 == 0 && (flags + 128) % 128 == 0;
    } else if bits == 5 {
      assert flags % 32 == 0 && (flags + 32) % 32 == 0;
    } else {
      assert flags % 8 == 0 && (flags + 8) % 8 == 0;
    }
  }

  ghost function RawBytes(flags: Byte, bits: nat, s: seq<Byte>): seq<Byte>
    requires PrefixFree(flags, bits)
  {
    IntBytes(flags, bits, |s|) + s
  }

  /** The literal qp_string_nginx writes: Huffman-coded only when that is strictly shorter. */
  ghost function StringBytes(c: Code, flags: Byte, bits: nat, s: seq<Byte>): seq<Byte>
    requires ValidCode(c) && StringPrefix(flags, bits)
  {
    StringPrefixFits(flags, bits);
    if (BitCount(c, s) + 7) / 8 >= |s| then RawBytes(flags, bits, s)
    else IntBytes(flags + Pow2(bits), bits, (BitCount(c, s) + 7) / 8) + HuffBytes(c, s)
  }

  /** One symbol enters the accumulator, which is 64 bits wide. */
  lemma AccumulateWord(c: Code, ch: Byte, acc: nat, pending: nat)
    requires ValidCode(c) && pending < 8
    ensures ToBits((acc * Pow2(c.len[ch]) + c.code[ch]) % Pow2(64), pending + c.len[ch])
            == ToBits(acc, pending) + Word(c, ch)
  {
    hide PrefixFreeCode, Canonical, ToBits, Pow2;
    ToBitsAppend(acc, c.code[ch], pending, c.len[ch]);
    ToBitsMod(acc * Pow2(c.len[ch]) + c.code[ch], pending + c.len[ch], 64);
  }

  /** The top eight pending bits leave as a byte. */
  lemma EmitByte(acc: nat, pending: nat, sent: seq<Byte>)
    requires pending >= 8
    ensures BytesToBits(sent + [Shr(acc, pending - 8) % 256]) + ToBits(acc, pending - 8)
            == BytesToBits(sent) + ToBits(acc, pending)
  {
    hide ToBits, Shr, BytesToBits;
    var high := Shr(acc, pending - 8);
    ToBitsSplit(acc, 8, pending - 8);
    assert Pow2(8) == 256 by { Pow2Values(); }
    ToBitsMod(high, 8, 8);
    BytesToBitsOne(high % 256);
    BytesToBitsAppend(sent, [high % 256]);
  }

  /** The last bits, with ones below them. */
  function LastByte(acc: nat, pending: nat): Byte
    requires 1 <= pending < 8
  {
    (acc * Pow2(8 - pending) + (Pow2(8 - pending) - 1)) % 256
  }

  lemma LastBits(acc: nat, pending: nat)
    requires 1 <= pending < 8
    ensures ToBits(LastByte(acc, pending), 8) == ToBits(acc, pending) + Ones(8 - pending)
  {
    var k := 8 - pending;
    assert Pow2(8) == 256 by { Pow2Values(); }
    hide Pow2, ToBits;
    OnesAre(k);
    ToBitsAppend(acc, Pow2(k) - 1, pending, k);
    ToBitsMod(acc * Pow2(k) + (Pow2(k) - 1), 8, 8);
  }

  lemma EmitLast(acc: nat, pending: nat, sent: seq<Byte>)
    requires 1 <= pending < 8
    ensures BytesToBits(sent + [LastByte(acc, pending)]) == BytesToBits(sent) + ToBits(acc, pending) + Ones(8 - pending)
  {
    hide Pow2, ToBits, LastByte;
    LastBits(acc, pending);
    BytesToBitsOne(LastByte(acc, pending));
    BytesToBitsAppend(sent, [LastByte(acc, pending)]);
  }

  /** The bit-accumulator loop of qp_string_nginx. */
  method PutHuffman(b: FieldBuffer, c: Code, s: seq<Byte>)
    requires ValidCode(c) && b.Valid()
    modifies b, b.data
    ensures b.Valid() && (b.data == old(b.data) || fresh(b.data))
    ensures b.Contents() == old(b.Contents()) + HuffBytes(c, s)
  {
    hide PrefixFreeCode, Canonical, ToBits, Pow2, BytesToBits, Shr, EncodeBits, LastByte, HuffBytes, Word, Ones,
      FieldBuffer.Contents, FieldBuffer.Valid;
    var acc: nat, pending: nat := 0, 0;
    ghost var sent: seq<Byte> := [];
    NothingSent(c, s);
    for i := 0 to |s|
      invariant b.Valid() && (b.data == old(b.data) || fresh(b.data))
      invariant b.Contents() == old(b.Contents()) + sent && pending < 8
      invariant BytesToBits(sent) + ToBits(acc, pending) == EncodeBits(c, s[..i])
    {
      AccumulateWord(c, s[i], acc, pending);
      EncodeOneMore(c, s, i);
      acc := (acc * Pow2(c.len[s[i]]) + c.code[s[i]]) % Pow2(64);
      pending := pending + c.len[s[i]];
      while pending >= 8
        invariant b.Valid() && (b.data == old(b.data) || fresh(b.data))
        invariant b.Contents() == old(b.Contents()) + sent
        invariant BytesToBits(sent) + ToBits(acc, pending) == EncodeBits(c, s[..i + 1])
      {
        EmitByte(acc, pending, sent);
        pending := pending - 8;
        b.Put([Shr(acc, pending) % 256]);
        sent := sent + [Shr(acc, pending) % 256];
      }
    }
    assert s[..|s|] == s;
    if pending > 0 {
      var last := LastByte(acc, pending);
      EmitLast(acc, pending, sent);
      b.Put([last]);
      sent := sent + [last];
      assert BytesToBits(sent) == EncodeBits(c, s) + Ones(8 - pending);
    } else {
      assert BytesToBits(sent) == EncodeBits(c, s) + Ones(0) by { NothingPending(acc); }
    }
    EncodingUnique(c, sent, HuffBytes(c, s), s);
  }

  lemma NothingSent(c: Code, s: seq<Byte>)
    requires ValidCode(c)
    ensures BytesToBits([]) + ToBits(0, 0) == EncodeBits(c, s[..0])
  {
  }

  lemma NothingPending(acc: nat)
    ensures ToBits(acc, 0) == [] && Ones(0) == []
  {
  }

  lemma EncodeOneMore(c: Code, s: seq<Byte>, i: nat)
    requires ValidCode(c) && i < |s|
    ensures EncodeBits(c, s[..i + 1]) == EncodeBits(c, s[..i]) + Word(c, s[i])
  {
    hide PrefixFreeCode, Canonical;
    assert s[..i + 1][..i] == s[..i];
  }

  /** The first loop of qp_string_nginx. */
  method HuffmanBits(c: Code, text: seq<Byte>) returns (nbits: nat)
    requires |c.len| == SYMBOLS
    ensures nbits == BitCount(c, text)
  {
    nbits := 0;
    for i := 0 to |text|
      invariant nbits == BitCount(c, text[..i])
    {
      assert text[..i + 1][..i] == text[..i];
      nbits := nbits + c.len[text[i]];
    }
    assert text[..|text|] == text;
  }

  /** qp_string_nginx */
  method PutString(b: FieldBuffer, c: Code, flags: Byte, bits: nat, s: seq<Byte>, lower: bool)
    requires ValidCode(c) && b.Valid() && StringPrefix(flags, bits)
    modifies b, b.data
    ensures b.Valid() && (b.data == old(b.data) || fresh(b.data))
    ensures b.Contents() == old(b.Contents()) + StringBytes(c, flags, bits, LowerAll(s, lower))
  {
    hide PrefixFreeCode, Canonical, Pow2, LowerAll, IntBytes, HuffBytes, StringPrefix, PrefixFree;
    var text := LowerAll(s, lower);
    var nbits := HuffmanBits(c, text);
    hide BitCount, Sized;
    StringPrefixFits(flags, bits);
    var hlen := (nbits + 7) / 8;
    if |text| == 0 || hlen >= |text| {
      b.PutInt(flags, bits, |text|);
      b.Put(text);
      return;
    }
    b.PutInt(flags + Pow2(bits), bits, hlen);
    PutHuffman(b, c, text);
  }

  // ---------- Reading ----------

  /** The flag above the length prefix: the literal is Huffman-coded. */
  predicate HBit(b: Byte, bits: nat) {
    b / Pow2(bits) % 2 == 1
  }

  /** A string literal at `i`, and the index after it. */
  ghost function GetString(c: Code, buf: seq<Byte>, i: nat, bits: nat, cap: nat): (r: Option<(seq<Byte>, nat)>)
    requires 1 <= bits <= 7
    ensures r.Some? ==> i < r.value.1 <= |buf|
  {
    if i >= |buf| then None
    else
      match GetInt(buf, i, bits)
      case None => None
      case Some((slen, j)) =>
        if slen > |buf| - j then None
        else
          var str := buf[j..j + slen];
          if HBit(buf[i], bits) then
            match Decode(c, str, cap)
            case None => None
            case Some(out) => Some((out, j + slen))
          else if slen >= cap || !NulFree(str) then None
          else Some((str, j + slen))
  }

  /** qd_string */
  method ReadString(t: Tables, ghost c: Code, buf: seq<Byte>, start: nat, bits: nat, cap: nat)
    returns (ok: bool, i: nat, out: seq<Byte>)
    requires ValidCode(c) && TablesOf(c, t) && 1 <= bits <= 7 && cap > 0
    ensures ok <==> GetString(c, buf, start, bits, cap).Some?
    ensures ok ==> GetString(c, buf, start, bits, cap) == Some((out, i))
  {
    hide ValidCode, TablesOf, Pow2, Decode, GetInt, HBit;
    i, out := start, [];
    if i >= |buf| {
      return false, i, out;
    }
    var huff := HBit(buf[i], bits);
    var slen;
    ok, i, slen := ReadInt(buf, i, bits);
    if !ok || slen > |buf| - i {
      return false, i, out;
    }
    var str := buf[i..i + slen];
    i := i + slen;
    if huff {
      var r := HuffDecode(t, c, str, cap);
      if r.Some? {
        return true, i, r.value;
      }
      return false, i, out;
    }
    if slen >= cap || !NulFree(str) {
      return false, i, out;
    }
    return true, i, str;
  }

  /** Decoding an encoding: the string, if it has no NUL and fits; otherwise a refusal. */
  lemma DecodeEncoding(c: Code, src: seq<Byte>, s: seq<Byte>, cap: nat)
    requires ValidCode(c) && cap > 0 && Encodes(c, src, s)
    ensures Decode(c, src, cap) == if NulFree(s) && |s| < cap then Some(s) else None
  {
    DecodeExactly(c, src, s, cap);
    hide BitStep, Run, ValidCode, EncodeBits, Ones, BytesToBits;
    var k: nat :| k < 8 && BytesToBits(src) == EncodeBits(c, s) + Ones(k);
    RunConcat(c, START, EncodeBits(c, s), Ones(k), cap);
    RunString(c, s, cap);
  }

  lemma HuffmanFlag(flags: Byte, bits: nat, v: nat)
    requires StringPrefix(flags, bits)
    ensures PrefixFree(flags, bits) && flags + Pow2(bits) < 256 && PrefixFree(flags + Pow2(bits), bits)
    ensures !HBit(IntBytes(flags, bits, v)[0], bits) && HBit(IntBytes(flags + Pow2(bits), bits, v)[0], bits)
  {
    StringPrefixFits(flags, bits);
    hide Pow2, StringPrefix, HBit, PrefixFree, Septets;
    var p := Pow2(bits);
    var low := if v < p - 1 then v else p - 1;
    FlagBit(flags, bits, low);
    PrefixFits(flags, bits);
    PrefixFits(flags + p, bits);
  }

  lemma FlagBit(flags: Byte, bits: nat, low: nat)
    requires StringPrefix(flags, bits) && low < Pow2(bits)
    ensures flags + Pow2(bits) + low < 256
    ensures !HBit(flags + low, bits) && HBit(flags + Pow2(bits) + low, bits)
  {
    Pow2Values();
    hide Pow2;
    FlagAbove(if bits == 7 then 0 else if bits == 5 then flags / 64 else flags / 16, Pow2(bits), low);
  }

  lemma FlagAbove(m: nat, p: nat, low: nat)
    requires low < p
    ensures (m * (2 * p) + low) / p % 2 == 0 && (m * (2 * p) + p + low) / p % 2 == 1
  {
    assert m * (2 * p) == (2 * m) * p && (2 * m + 1) * p == (2 * m) * p + p;
    DivUnique(m * (2 * p) + low, p, 2 * m, low);
    DivUnique(m * (2 * p) + p + low, p, 2 * m + 1, low);
  }

  /** The length prefix of a literal is read back, and what follows it is its text. */
  lemma LiteralAt(pre: seq<Byte>, post: seq<Byte>, flags: Byte, bits: nat, text: seq<Byte>)
    requires PrefixFree(flags, bits)
    ensures var head := IntBytes(flags, bits, |text|);
            var buf := pre + (head + text) + post;
            && buf[|pre|] == head[0]
            && GetInt(buf, |pre|, bits) == (if |text| <= UINT32_MAX then Some((|text|, |pre| + |head|)) else None)
            && buf[|pre| + |head|..|pre| + |head| + |text|] == text
  {
    hide Pow2, GetInt, PrefixFree, IntBytes;
    var head := IntBytes(flags, bits, |text|);
    var buf := pre + (head + text) + post;
    assert buf == pre + head + (text + post);
    IntReadBack(pre, text + post, flags, bits, |text|);
  }

  /** qd_string undoes qp_string exactly for the strings without a NUL that fit its buffer. */
  lemma RawReadBack(pre: seq<Byte>, post: seq<Byte>, c: Code, flags: Byte, bits: nat, s: seq<Byte>, cap: nat)
    requires StringPrefix(flags, bits) && 0 < cap <= UINT32_MAX
    ensures PrefixFree(flags, bits)
    ensures var lit := RawBytes(flags, bits, s);
            GetString(c, pre + lit + post, |pre|, bits, cap)
            == if NulFree(s) && |s| < cap then Some((s, |pre| + |lit|)) else None
  {
    HuffmanFlag(flags, bits, |s|);
    hide Pow2, GetInt, StringPrefix, PrefixFree, Decode, IntBytes, NulFree, HBit;
    LiteralAt(pre, post, flags, bits, s);
  }

  lemma HuffReadBack(pre: seq<Byte>, post: seq<Byte>, c: Code, flags: Byte, bits: nat, s: seq<Byte>, cap: nat)
    requires ValidCode(c) && StringPrefix(flags, bits) && 0 < cap <= UINT32_MAX
    requires |HuffBytes(c, s)| < |s|
    ensures flags + Pow2(bits) < 256 && PrefixFree(flags + Pow2(bits), bits)
    ensures var lit := IntBytes(flags + Pow2(bits), bits, |HuffBytes(c, s)|) + HuffBytes(c, s);
            GetString(c, pre + lit + post, |pre|, bits, cap)
            == if NulFree(s) && |s| < cap then Some((s, |pre| + |lit|)) else None
  {
    hide ValidCode, Pow2, GetInt, StringPrefix, PrefixFree, Decode, IntBytes, NulFree, HuffBytes, Encodes, HBit;
    var hs := HuffBytes(c, s);
    HuffmanFlag(flags, bits, |hs|);
    LiteralAt(pre, post, flags + Pow2(bits), bits, hs);
    DecodeEncoding(c, hs, s, cap);
  }

  lemma CodeSize(c: Code)
    requires ValidCode(c)
    ensures |c.len| == SYMBOLS
  {
  }

  /** qd_string undoes qp_string_nginx exactly for the strings without a NUL that fit its buffer. */
  lemma StringReadBack(pre: seq<Byte>, post: seq<Byte>, c: Code, flags: Byte, bits: nat, s: seq<Byte>, cap: nat)
    requires ValidCode(c) && StringPrefix(flags, bits) && 0 < cap <= UINT32_MAX
    ensures var lit := StringBytes(c, flags, bits, s);
            GetString(c, pre + lit + post, |pre|, bits, cap)
            == if NulFree(s) && |s| < cap then Some((s, |pre| + |lit|)) else None
  {
    hide ValidCode, Pow2, GetString, StringPrefix, PrefixFree, IntBytes, NulFree, HuffBytes, Encodes, BitCount;
    CodeSize(c);
    if (BitCount(c, s) + 7) / 8 >= |s| {
      RawReadBack(pre, post, c, flags, bits, s, cap);
    } else {
      HuffReadBack(pre, post, c, flags, bits, s, cap);
    }
  }
}
