/**
  String literals of core/tincd/src/h3.c: the Huffman code of RFC 7541, its decoding tables, and
  qp_string_nginx, huff_decode and qd_string.  The code itself is a parameter.
  */
module Huffman {
  import opened Wrappers
  import opened Bits
  import opened PrefixInt

  const EOS := 256
  const SYMBOLS := 257

  /** huff_len and huff_code. */
  datatype Code = Code(len: seq<nat>, code: seq<nat>)

  ghost predicate ValidCode(c: Code) {
    Sized(c) && PrefixFreeCode(c) && Canonical(c) && c.len[EOS] >= 8 && c.code[EOS] == Pow2(c.len[EOS]) - 1
  }

  ghost predicate Sized(c: Code) {
    && |c.len| == SYMBOLS && |c.code| == SYMBOLS
    && forall s :: 0 <= s < SYMBOLS ==> 1 <= c.len[s] <= 30 && c.code[s] < Pow2(c.len[s])
  }

  /** No code word begins another. */
  ghost predicate PrefixFreeCode(c: Code)
    requires Sized(c)
  {
    forall s, t :: 0 <= s < SYMBOLS && 0 <= t < SYMBOLS && s != t ==> !(Word(c, s) <= Word(c, t))
  }

  /** Codes of one length are consecutive in symbol order. */
  ghost predicate Canonical(c: Code)
    requires Sized(c)
  {
    forall s, t :: 0 <= s < SYMBOLS && 0 <= t < SYMBOLS && c.len[s] == c.len[t] ==>
      c.code[s] - Rank(c, c.len[s], s) == c.code[t] - Rank(c, c.len[t], t)
  }

  /** The bits of symbol `s`. */
  ghost function Word(c: Code, s: nat): (w: seq<bool>)
    requires s < |c.len| && s < |c.code|
    ensures |w| == c.len[s]
  {
    ToBits(c.code[s], c.len[s])
  }

  /** How many symbols below `m` have codes of `l` bits: in a canonical code these are consecutive. */
  function Rank(c: Code, l: nat, m: nat): (r: nat)
    requires m <= |c.len|
    ensures r <= m
  {
    if m == 0 then 0 else Rank(c, l, m - 1) + if c.len[m - 1] == l then 1 else 0
  }

  lemma {:induction false} RankGrows(c: Code, l: nat, m: nat, n: nat)
    requires m <= n <= |c.len|
    ensures Rank(c, l, m) <= Rank(c, l, n)
  {
    if m < n {
      RankGrows(c, l, m, n - 1);
    }
  }

  // ---------- Decoding tables ----------

  /** huff_first, huff_count, huff_offset and huff_sorted. */
  datatype Tables = Tables(first: seq<nat>, count: seq<nat>, offset: seq<nat>, sorted: seq<nat>)

  ghost predicate IsSymbol(c: Code, s: nat, l: nat, code: nat) {
    s < SYMBOLS && s < |c.len| && s < |c.code| && c.len[s] == l && c.code[s] == code
  }

  predicate Shaped(t: Tables) {
    |t.first| == 31 && |t.count| == 31 && |t.offset| == 31
    && forall l :: 0 <= l < 31 ==> t.offset[l] + t.count[l] <= |t.sorted|
  }

  /** The test huff_decode makes after each bit. */
  predicate Hit(t: Tables, l: nat, code: nat)
    requires Shaped(t) && l <= 30
  {
    t.count[l] != 0 && code >= t.first[l] && code - t.first[l] < t.count[l]
  }

  /** The tables find exactly the symbols. */
  ghost predicate TablesOf(c: Code, t: Tables) {
    && Shaped(t)
    && (forall l, code :: 1 <= l <= 30 && code >= 0 && Hit(t, l, code) ==>
          IsSymbol(c, t.sorted[t.offset[l] + code - t.first[l]], l, code))
    && (forall s :: 0 <= s < SYMBOLS && s < |c.len| && s < |c.code| && 1 <= c.len[s] <= 30 ==>
        Hit(t, c.len[s], c.code[s]))
  }

  /** What the rows of one code length hold once filled in. */
  ghost predicate RowDone(c: Code, l: nat, upto: nat, first: nat, count: nat, offset: nat, sorted: seq<nat>)
    requires upto <= |c.len| && |c.len| <= |c.code|
  {
    && count == Rank(c, l, upto)
    && offset + count <= |sorted|
    && (forall s :: 0 <= s < upto && c.len[s] == l ==> c.code[s] - Rank(c, l, s) == first)
    && (forall i :: offset <= i < offset + count ==>
          sorted[i] < upto && c.len[sorted[i]] == l && Rank(c, l, sorted[i]) == i - offset)
  }

  /** One code of a row fixes where the row begins. */
  lemma RowFirst(c: Code, l: nat, sym: nat, first: nat, count: nat, offset: nat, sorted: seq<nat>)
    requires Sized(c) && Canonical(c) && sym < SYMBOLS && c.len[sym] == l
    requires RowDone(c, l, sym, first, count, offset, sorted)
    ensures c.code[sym] - Rank(c, l, sym) == if count == 0 then c.code[sym] else first
    ensures count == 0 ==> forall s :: 0 <= s < sym ==> c.len[s] != l
  {
    if count == 0 {
      RankZero(c, l, sym);
    } else {
      var s := sorted[offset];
      assert c.len[s] == l && c.code[s] - Rank(c, l, s) == first;
    }
  }

  /** Adding symbol `sym` to its row. */
  lemma RowAdd(c: Code, l: nat, sym: nat, first: nat, count: nat, offset: nat, sorted: seq<nat>)
    requires Sized(c) && Canonical(c) && sym < SYMBOLS && c.len[sym] == l
    requires RowDone(c, l, sym, first, count, offset, sorted) && |sorted| == offset + count
    ensures RowDone(c, l, sym + 1, if count == 0 then c.code[sym] else first, count + 1, offset, sorted + [sym])
  {
    assert |c.len| == SYMBOLS && |c.code| == SYMBOLS;
    assert Rank(c, l, sym + 1) == count + 1;
    RowFirst(c, l, sym, first, count, offset, sorted);
    hide Sized, Canonical, Rank;
    var more := sorted + [sym];
    assert more[offset + count] == sym;
    assert forall i :: offset <= i < offset + count ==> more[i] == sorted[i];
  }

  /** The inner loop of huff_init: the symbols whose codes have `l` bits. */
  method HuffRow(c: Code, l: nat, before: seq<nat>) returns (first: nat, count: nat, sorted: seq<nat>)
    requires Sized(c) && Canonical(c)
    ensures before <= sorted && RowDone(c, l, SYMBOLS, first, count, |before|, sorted)
  {
    hide Canonical, RowDone;
    first, count, sorted := UINT32_MAX, 0, before;
    RowEmpty(c, l, before);
    for sym := 0 to SYMBOLS
      invariant before <= sorted && |sorted| == |before| + count
      invariant RowDone(c, l, sym, first, count, |before|, sorted)
    {
      if c.len[sym] == l {
        RowAdd(c, l, sym, first, count, |before|, sorted);
        if count == 0 {
          first := c.code[sym];
        }
        sorted := sorted + [sym];
        count := count + 1;
      } else {
        RowSkip(c, l, sym, first, count, |before|, sorted);
      }
    }
  }

  lemma RowEmpty(c: Code, l: nat, sorted: seq<nat>)
    requires Sized(c)
    ensures RowDone(c, l, 0, UINT32_MAX, 0, |sorted|, sorted)
  {
  }

  lemma RowSkip(c: Code, l: nat, sym: nat, first: nat, count: nat, offset: nat, sorted: seq<nat>)
    requires Sized(c) && sym < SYMBOLS && c.len[sym] != l
    requires RowDone(c, l, sym, first, count, offset, sorted)
    ensures RowDone(c, l, sym + 1, first, count, offset, sorted)
  {
    assert |c.len| == SYMBOLS && |c.code| == SYMBOLS;
    hide Sized;
  }

  /** huff_init */
  method HuffInit(c: Code) returns (t: Tables)
    requires ValidCode(c)
    ensures TablesOf(c, t)
  {
    hide PrefixFreeCode, Canonical;
    var first: seq<nat> := seq(31, _ => UINT32_MAX);
    var count: seq<nat>, offset: seq<nat> := seq(31, _ => 0), seq(31, _ => 0);
    var sorted: seq<nat> := [];
    for l := 1 to 31
      invariant |first| == 31 && |count| == 31 && |offset| == 31 && count[0] == 0 && offset[0] == 0
      invariant forall m :: 1 <= m < l ==> RowDone(c, m, SYMBOLS, first[m], count[m], offset[m], sorted)
    {
      var f, n, longer := HuffRow(c, l, sorted);
      offset, first, count := offset[l := |sorted|], first[l := f], count[l := n];
      sorted := longer;
    }
    t := Tables(first, count, offset, sorted);
    RowsMakeTables(c, t);
  }

  lemma {:induction false} RankZero(c: Code, l: nat, m: nat)
    requires m <= |c.len| && Rank(c, l, m) == 0
    ensures forall s :: 0 <= s < m ==> c.len[s] != l
  {
    if m > 0 {
      RankZero(c, l, m - 1);
    }
  }

  lemma RowsMakeTables(c: Code, t: Tables)
    requires ValidCode(c)
    requires |t.first| == 31 && |t.count| == 31 && |t.offset| == 31 && t.count[0] == 0 && t.offset[0] == 0
    requires forall m :: 1 <= m < 31 ==> RowDone(c, m, SYMBOLS, t.first[m], t.count[m], t.offset[m], t.sorted)
    ensures TablesOf(c, t)
  {
    hide PrefixFreeCode, Canonical, Sized, RowDone, IsSymbol;
    RowsShape(c, t);
    forall l, code | 1 <= l <= 30 && code >= 0 && Hit(t, l, code)
      ensures IsSymbol(c, t.sorted[t.offset[l] + code - t.first[l]], l, code)
    {
      RowHit(c, t, l, code);
    }
    forall s | 0 <= s < SYMBOLS && s < |c.len| && s < |c.code| && 1 <= c.len[s] <= 30
      ensures Hit(t, c.len[s], c.code[s])
    {
      RowComplete(c, t, s);
    }
  }

  lemma RowsShape(c: Code, t: Tables)
    requires Sized(c) && |t.first| == 31 && |t.count| == 31 && |t.offset| == 31 && t.count[0] == 0 && t.offset[0] == 0
    requires forall m :: 1 <= m < 31 ==> RowDone(c, m, SYMBOLS, t.first[m], t.count[m], t.offset[m], t.sorted)
    ensures Shaped(t) && |c.len| == SYMBOLS && |c.code| == SYMBOLS
  {
  }

  lemma RowHit(c: Code, t: Tables, l: nat, code: nat)
    requires Sized(c) && Shaped(t) && 1 <= l <= 30 && Hit(t, l, code)
    requires RowDone(c, l, SYMBOLS, t.first[l], t.count[l], t.offset[l], t.sorted)
    ensures IsSymbol(c, t.sorted[t.offset[l] + code - t.first[l]], l, code)
  {
  }

  lemma RowComplete(c: Code, t: Tables, s: nat)
    requires Sized(c) && Shaped(t) && s < SYMBOLS
    requires RowDone(c, c.len[s], SYMBOLS, t.first[c.len[s]], t.count[c.len[s]], t.offset[c.len[s]], t.sorted)
    ensures Hit(t, c.len[s], c.code[s])
  {
    RankGrows(c, c.len[s], s + 1, SYMBOLS);
  }

  // ---------- Decoding ----------

  /** Where huff_decode stands between two bits. */
  datatype Partial = Partial(code: nat, bits: nat, out: seq<Byte>)

  const START := Partial(0, 0, [])

  /** The symbol whose code is `code` in `l` bits. */
  ghost function SymbolOf(c: Code, l: nat, code: nat): (r: Option<nat>)
    ensures r.Some? ==> IsSymbol(c, r.value, l, code)
    ensures r == None ==> forall s: nat :: !IsSymbol(c, s, l, code)
  {
    if exists s: nat :: IsSymbol(c, s, l, code) then
      var s: nat :| IsSymbol(c, s, l, code);
      Some(s)
    else None
  }

  ghost function BitStep(c: Code, st: Partial, bit: bool, cap: nat): Option<Partial> {
    var code, l := 2 * st.code + (if bit then 1 else 0), st.bits + 1;
    match SymbolOf(c, l, code)
    case Some(s) => if s == EOS || s == 0 || |st.out| + 1 >= cap then None else Some(Partial(0, 0, st.out + [s]))
    case None => if l == 30 then None else Some(Partial(code, l, st.out))
  }

  ghost function Run(c: Code, st: Partial, bits: seq<bool>, cap: nat): Option<Partial> {
    if bits == [] then Some(st)
    else
      match Run(c, st, bits[..|bits| - 1], cap)
      case None => None
      case Some(mid) => BitStep(c, mid, bits[|bits| - 1], cap)
  }

  /** Fewer than eight bits left over, all ones. */
  predicate Padding(st: Partial) {
    st.bits <= 7 && st.code == Pow2(st.bits) - 1
  }

  ghost function Decode(c: Code, src: seq<Byte>, cap: nat): Option<seq<Byte>> {
    match Run(c, START, BytesToBits(src), cap)
    case Some(st) => if Padding(st) then Some(st.out) else None
    case None => None
  }

  lemma RunSnoc(c: Code, st: Partial, bits: seq<bool>, bit: bool, cap: nat)
    ensures Run(c, st, bits + [bit], cap)
            == match Run(c, st, bits, cap) case None => None case Some(mid) => BitStep(c, mid, bit, cap)
  {
    assert (bits + [bit])[..|bits|] == bits;
  }

  lemma {:induction false} RunConcat(c: Code, st: Partial, a: seq<bool>, b: seq<bool>, cap: nat)
    ensures Run(c, st, a + b, cap) == match Run(c, st, a, cap) case None => None case Some(mid) => Run(c, mid, b, cap)
  {
    if b == [] {
      assert a + b == a;
    } else {
      var n := |b| - 1;
      RunConcat(c, st, a, b[..n], cap);
      assert (a + b)[..|a + b| - 1] == a + b[..n];
    }
  }

  /** What huff_decode does with one bit. */
  function TableStep(t: Tables, st: Partial, bit: bool, cap: nat): Option<Partial>
    requires Shaped(t) && st.bits < 30
  {
    var code, l := 2 * st.code + (if bit then 1 else 0), st.bits + 1;
    if Hit(t, l, code) then
      var s := t.sorted[t.offset[l] + code - t.first[l]];
      if s >= EOS || s == 0 || |st.out| + 1 >= cap then None else Some(Partial(0, 0, st.out + [s]))
    else if l == 30 then None
    else Some(Partial(code, l, st.out))
  }

  /** The table test is the symbol test. */
  lemma TablesStep(t: Tables, c: Code, st: Partial, bit: bool, cap: nat)
    requires ValidCode(c) && TablesOf(c, t) && st.bits < 30
    ensures Shaped(t) && TableStep(t, st, bit, cap) == BitStep(c, st, bit, cap)
  {
    var code, l := 2 * st.code + (if bit then 1 else 0), st.bits + 1;
    hide ValidCode, TablesOf;
    HitExactly(t, c, l, code);
  }

  lemma HitExactly(t: Tables, c: Code, l: nat, code: nat)
    requires ValidCode(c) && TablesOf(c, t) && 1 <= l <= 30
    ensures Shaped(t)
    ensures SymbolOf(c, l, code) == if Hit(t, l, code) then Some(t.sorted[t.offset[l] + code - t.first[l]]) else None
    ensures Hit(t, l, code) ==> t.sorted[t.offset[l] + code - t.first[l]] <= EOS
  {
    hide PrefixFreeCode, Canonical;
    if Hit(t, l, code) {
      assert IsSymbol(c, t.sorted[t.offset[l] + code - t.first[l]], l, code);
      OneSymbol(c, SymbolOf(c, l, code).value, t.sorted[t.offset[l] + code - t.first[l]]);
    }
  }

  /** One bit more: where it stands in the source, and what reading it does. */
  lemma NextBit(t: Tables, c: Code, src: seq<Byte>, i: nat, b: nat, st: Partial, cap: nat)
    requires ValidCode(c) && TablesOf(c, t) && i < |src| && b < 8 && st.bits < 30
    requires Run(c, START, BytesToBits(src)[..8 * i + 7 - b], cap) == Some(st)
    ensures Shaped(t)
    ensures var next := TableStep(t, st, Shr(src[i], b) % 2 == 1, cap);
            && Run(c, START, BytesToBits(src)[..8 * i + 8 - b], cap) == next
            && (next == None ==> Run(c, START, BytesToBits(src), cap) == None)
  {
    hide ValidCode, TablesOf, BitStep, Hit, ToBits, Run, TableStep;
    var whole, pos := BytesToBits(src), 8 * i + 7 - b;
    BytesToBitsAt(src, i, 7 - b);
    ToBitsAt(src[i], 8, b);
    assert whole[..pos + 1] == whole[..pos] + [whole[pos]];
    RunSnoc(c, START, whole[..pos], whole[pos], cap);
    TablesStep(t, c, st, whole[pos], cap);
    RunConcat(c, START, whole[..pos + 1], whole[pos + 1..], cap);
    assert whole == whole[..pos + 1] + whole[pos + 1..];
  }

  lemma NothingRead(c: Code, src: seq<Byte>, cap: nat)
    ensures Run(c, START, BytesToBits(src)[..0], cap) == Some(START)
  {
    assert BytesToBits(src)[..0] == [];
  }

  /** The body of the loops of huff_decode. */
  method TakeBit(t: Tables, code: nat, bits: nat, out: seq<Byte>, bit: nat, cap: nat)
    returns (ok: bool, code': nat, bits': nat, out': seq<Byte>)
    requires Shaped(t) && bits < 30 && bit < 2
    ensures TableStep(t, Partial(code, bits, out), bit == 1, cap)
            == if ok then Some(Partial(code', bits', out')) else None
    ensures ok ==> bits' < 30
  {
    ok, code', bits', out' := true, 2 * code + bit, bits + 1, out;
    if Hit(t, bits', code') {
      var sym := t.sorted[t.offset[bits'] + (code' - t.first[bits'])];
      if sym >= EOS || sym == 0 || |out| + 1 >= cap {
        return false, 0, 0, out;
      }
      out', code', bits' := out + [sym], 0, 0;
    } else if bits' == 30 {
      ok := false;
    }
  }

  /** huff_decode */
  method HuffDecode(t: Tables, ghost c: Code, src: seq<Byte>, cap: nat) returns (r: Option<seq<Byte>>)
    requires ValidCode(c) && TablesOf(c, t) && cap > 0
    ensures r == Decode(c, src, cap)
  {
    hide ValidCode, TablesOf, BitStep, ToBits, Run, BytesToBits, Hit, TableStep, Shaped, Shr, Pow2;
    var code: nat, bits: nat, out: seq<Byte> := 0, 0, [];
    NothingRead(c, src, cap);
    for i := 0 to |src|
      invariant bits < 30
      invariant Run(c, START, BytesToBits(src)[..8 * i], cap) == Some(Partial(code, bits, out))
    {
      for b := 8 downto 0
        invariant bits < 30
        invariant Run(c, START, BytesToBits(src)[..8 * i + 8 - b], cap) == Some(Partial(code, bits, out))
      {
        NextBit(t, c, src, i, b, Partial(code, bits, out), cap);
        var ok;
        ok, code, bits, out := TakeBit(t, code, bits, out, Shr(src[i], b) % 2, cap);
        if !ok {
          return None;
        }
      }
    }
    assert BytesToBits(src)[..8 * |src|] == BytesToBits(src);
    if bits > 7 || code != Pow2(bits) - 1 {
      return None;
    }
    return Some(out);
  }

  lemma OneSymbol(c: Code, r: nat, s: nat)
    requires ValidCode(c) && r < SYMBOLS && s < SYMBOLS && c.len[r] == c.len[s] && c.code[r] == c.code[s]
    ensures r == s
  {
    assert Word(c, r) == Word(c, s);
    assert Word(c, r) <= Word(c, s);
  }

  // ---------- Encoding ----------

  ghost function EncodeBits(c: Code, s: seq<Byte>): (bits: seq<bool>)
    requires ValidCode(c)
  {
    if s == [] then [] else EncodeBits(c, s[..|s| - 1]) + Word(c, s[|s| - 1])
  }

  /** `src` is the encoding of `s`: its code words, padded with ones to a whole number of bytes. */
  ghost predicate Encodes(c: Code, src: seq<Byte>, s: seq<Byte>)
    requires ValidCode(c)
  {
    exists k: nat :: k < 8 && BytesToBits(src) == EncodeBits(c, s) + Ones(k)
  }

  /** There is only one encoding of a string. */
  lemma EncodingUnique(c: Code, a: seq<Byte>, b: seq<Byte>, s: seq<Byte>)
    requires ValidCode(c) && Encodes(c, a, s) && Encodes(c, b, s)
    ensures a == b
  {
    hide ToBits, ValidCode, EncodeBits, BytesToBits;
    var j: nat :| j < 8 && BytesToBits(a) == EncodeBits(c, s) + Ones(j);
    var k: nat :| k < 8 && BytesToBits(b) == EncodeBits(c, s) + Ones(k);
    ghost var n := |EncodeBits(c, s)|;
    assert 8 * |a| == n + j && 8 * |b| == n + k;
    assert j == k;
    BytesToBitsInjective(a, b);
  }

  /** Within a code word nothing matches; at its end exactly its symbol does. */
  lemma StepInWord(c: Code, s: nat, k: nat, out: seq<Byte>, cap: nat)
    requires ValidCode(c) && s < SYMBOLS && k < c.len[s]
    ensures var w := Word(c, s);
            var st := Partial(Shr(c.code[s], c.len[s] - k), k, out);
            BitStep(c, st, w[k], cap)
            == if k + 1 < c.len[s] then Some(Partial(Shr(c.code[s], c.len[s] - k - 1), k + 1, out))
               else if s == EOS || s == 0 || |out| + 1 >= cap then None
               else Some(Partial(0, 0, out + [s]))
  {
    WordPrefix(c, s, k);
    SymbolAt(c, s, k);
    hide ValidCode;
    assert Shr(c.code[s], 0) == c.code[s];
  }

  /** Reading bit `k` extends the accumulated prefix of the code word. */
  lemma WordPrefix(c: Code, s: nat, k: nat)
    requires ValidCode(c) && s < SYMBOLS && k < c.len[s]
    ensures var v, n := c.code[s], c.len[s];
            && Shr(v, n - k - 1) == 2 * Shr(v, n - k) + (if Word(c, s)[k] then 1 else 0)
            && ToBits(Shr(v, n - k - 1), k + 1) == Word(c, s)[..k + 1]
  {
    hide PrefixFreeCode, Canonical;
    var v, n := c.code[s], c.len[s];
    ToBitsAt(v, n, n - 1 - k);
    ShrStep(v, n - k - 1);
    ToBitsSplit(v, k + 1, n - k - 1);
  }

  lemma SymbolAt(c: Code, s: nat, k: nat)
    requires ValidCode(c) && s < SYMBOLS && k < c.len[s]
    ensures SymbolOf(c, k + 1, Shr(c.code[s], c.len[s] - k - 1)) == if k + 1 == c.len[s] then Some(s) else None
  {
    hide Canonical;
    var code := Shr(c.code[s], c.len[s] - k - 1);
    WordPrefix(c, s, k);
    if k + 1 == c.len[s] {
      assert IsSymbol(c, s, k + 1, code);
      OneSymbol(c, SymbolOf(c, k + 1, code).value, s);
    } else if SymbolOf(c, k + 1, code).Some? {
      NoPrefixSymbol(c, SymbolOf(c, k + 1, code).value, s, k + 1);
    }
  }

  lemma NoPrefixSymbol(c: Code, r: nat, s: nat, l: nat)
    requires ValidCode(c) && r < SYMBOLS && s < SYMBOLS && l < c.len[s] && c.len[r] == l
    ensures Word(c, r) != Word(c, s)[..l]
  {
    hide Canonical;
    assert !(Word(c, r) <= Word(c, s));
  }

  lemma {:induction false} ShrStep(v: nat, k: nat)
    ensures Shr(v, k) == 2 * Shr(v, k + 1) + Shr(v, k) % 2
  {
    if k > 0 {
      ShrStep(v / 2, k - 1);
    }
  }

  lemma {:induction false} ShrAll(v: nat, n: nat)
    requires v < Pow2(n)
    ensures Shr(v, n) == 0
  {
    if n > 0 {
      ShrAll(v / 2, n - 1);
    }
  }

  /** Reading the first `k` bits of a code word, not all of it, only accumulates. */
  lemma {:induction false} RunInWord(c: Code, s: nat, k: nat, out: seq<Byte>, cap: nat)
    requires ValidCode(c) && s < SYMBOLS && k < c.len[s]
    ensures Run(c, Partial(0, 0, out), Word(c, s)[..k], cap) == Some(Partial(Shr(c.code[s], c.len[s] - k), k, out))
  {
    hide BitStep;
    var w := Word(c, s);
    if k == 0 {
      ShrAll(c.code[s], c.len[s]);
    } else {
      RunInWord(c, s, k - 1, out, cap);
      StepInWord(c, s, k - 1, out, cap);
      assert w[..k][..k - 1] == w[..k - 1];
    }
  }

  lemma RunWord(c: Code, s: nat, out: seq<Byte>, cap: nat)
    requires ValidCode(c) && s < SYMBOLS
    ensures Run(c, Partial(0, 0, out), Word(c, s), cap)
            == if s == EOS || s == 0 || |out| + 1 >= cap then None else Some(Partial(0, 0, out + [s]))
  {
    hide BitStep;
    var w, n := Word(c, s), c.len[s];
    RunInWord(c, s, n - 1, out, cap);
    StepInWord(c, s, n - 1, out, cap);
    assert w[..n][..n - 1] == w[..n - 1] && w[..n] == w;
  }

  /** Decoding the code words of a string gives the string, if it has no NUL and fits. */
  lemma {:induction false} RunString(c: Code, s: seq<Byte>, cap: nat)
    requires ValidCode(c) && cap > 0
    ensures Run(c, START, EncodeBits(c, s), cap) == if NulFree(s) && |s| < cap then Some(Partial(0, 0, s)) else None
  {
    if s != [] {
      hide BitStep, Run;
      var n := |s| - 1;
      var init, ch := s[..n], s[n];
      assert s == init + [ch];
      assert NulFree(s) <==> NulFree(init) && ch != 0;
      RunString(c, init, cap);
      RunConcat(c, START, EncodeBits(c, init), Word(c, ch), cap);
      RunWord(c, ch, init, cap);
    }
  }

  /** Up to seven ones are the beginning of EOS, so they are taken for padding. */
  lemma RunPadding(c: Code, k: nat, out: seq<Byte>, cap: nat)
    requires ValidCode(c) && k < 8
    ensures exists st :: Run(c, Partial(0, 0, out), Ones(k), cap) == Some(st) && Padding(st) && st.out == out
  {
    hide PrefixFreeCode, Canonical, ToBits, Pow2, Shr, Ones, BitStep, Run;
    var n := c.len[EOS];
    OnesAre(n);
    OnesSplit(k, n - k);
    assert Word(c, EOS)[..k] == Ones(k);
    RunInWord(c, EOS, k, out, cap);
    ToBitsSplit(c.code[EOS], k, n - k);
    var v := Shr(c.code[EOS], n - k);
    assert ToBits(v, k) == Ones(k);
    OnesAre(k);
    ShrBelow(c.code[EOS], k, n - k);
    ToBitsInjective(v, Pow2(k) - 1, k);
  }

  lemma {:induction false} ShrBelow(v: nat, k: nat, m: nat)
    requires v < Pow2(k + m)
    ensures Shr(v, m) < Pow2(k)
  {
    if m > 0 {
      ShrBelow(v / 2, k, m - 1);
    }
  }

  ghost predicate SoundAt(c: Code, bits: seq<bool>, st: Partial, cap: nat)
    requires ValidCode(c)
  {
    && bits == EncodeBits(c, st.out) + ToBits(st.code, st.bits)
    && st.code < Pow2(st.bits) && NulFree(st.out) && |st.out| < cap
  }

  lemma StepSound(c: Code, bits: seq<bool>, mid: Partial, bit: bool, cap: nat)
    requires ValidCode(c) && SoundAt(c, bits, mid, cap) && BitStep(c, mid, bit, cap).Some?
    ensures SoundAt(c, bits + [bit], BitStep(c, mid, bit, cap).value, cap)
  {
    hide ValidCode, ToBits, Pow2, EncodeBits;
    var st := BitStep(c, mid, bit, cap).value;
    var code := 2 * mid.code + if bit then 1 else 0;
    BitAdded(mid.code, mid.bits, bit);
    if SymbolOf(c, mid.bits + 1, code).Some? {
      EncodeSnoc(c, mid.out, st.out[|mid.out|]);
      assert st.out == mid.out + [st.out[|mid.out|]];
    }
  }

  lemma BitAdded(code: nat, n: nat, bit: bool)
    requires code < Pow2(n)
    ensures var more := 2 * code + if bit then 1 else 0;
            ToBits(more, n + 1) == ToBits(code, n) + [bit] && more < Pow2(n + 1)
    ensures ToBits(0, 0) == [] && Pow2(0) == 1
  {
    assert Pow2(n + 1) == 2 * Pow2(n);
  }

  lemma EncodeSnoc(c: Code, s: seq<Byte>, b: Byte)
    requires ValidCode(c)
    ensures EncodeBits(c, s + [b]) == EncodeBits(c, s) + Word(c, b)
  {
    hide ValidCode;
    assert (s + [b])[..|s|] == s;
  }

  /** Whatever was accepted so far is exactly the encoding of what came out, then the bits pending. */
  lemma {:induction false} RunSound(c: Code, bits: seq<bool>, cap: nat)
    requires ValidCode(c) && Run(c, START, bits, cap).Some? && cap > 0
    ensures SoundAt(c, bits, Run(c, START, bits, cap).value, cap)
  {
    hide BitStep, ValidCode;
    if bits != [] {
      var n := |bits| - 1;
      RunSound(c, bits[..n], cap);
      hide SoundAt;
      StepSound(c, bits[..n], Run(c, START, bits[..n], cap).value, bits[n], cap);
      assert bits == bits[..n] + [bits[n]];
    }
  }

  /** A byte string is accepted as `s` exactly when it is the encoding of `s`, and `s` has no NUL and fits. */
  lemma DecodeExactly(c: Code, src: seq<Byte>, s: seq<Byte>, cap: nat)
    requires ValidCode(c) && cap > 0
    ensures Decode(c, src, cap) == Some(s) <==> Encodes(c, src, s) && NulFree(s) && |s| < cap
  {
    hide BitStep, Run, ValidCode;
    if Decode(c, src, cap) == Some(s) {
      RunSound(c, BytesToBits(src), cap);
      var st := Run(c, START, BytesToBits(src), cap).value;
      OnesAre(st.bits);
      assert BytesToBits(src) == EncodeBits(c, s) + Ones(st.bits);
    }
    if Encodes(c, src, s) && NulFree(s) && |s| < cap {
      var k: nat :| k < 8 && BytesToBits(src) == EncodeBits(c, s) + Ones(k);
      RunConcat(c, START, EncodeBits(c, s), Ones(k), cap);
      RunString(c, s, cap);
      RunPadding(c, k, s, cap);
    }
  }
}
