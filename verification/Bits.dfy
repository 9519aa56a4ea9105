/** Bytes, powers of two, and numbers as strings of bits, most significant first. */
module Bits {

  type Byte = b: int | 0 <= b < 256 witness 0

  /** Text as bytes; everything written with it here is ASCII. */
  function Text(s: string): (r: seq<Byte>)
    ensures |r| == |s|
    ensures forall i :: 0 <= i < |s| ==> r[i] == s[i] as int % 256
  {
    seq(|s|, i requires 0 <= i < |s| => s[i] as int % 256)
  }

  /** A C string: no NUL inside. */
  predicate NulFree(s: seq<Byte>) {
    forall i :: 0 <= i < |s| ==> s[i] != 0
  }

  /** tolower, for ASCII. */
  function Lower(b: Byte): Byte {
    if 65 <= b <= 90 then b + 32 else b
  }

  /** What comes in a sequence of calls. */
  function Joined(chunks: seq<seq<Byte>>): seq<Byte> {
    if chunks == [] then [] else chunks[0] + Joined(chunks[1..])
  }

  lemma {:induction false} JoinedSnoc(chunks: seq<seq<Byte>>, chunk: seq<Byte>)
    ensures Joined(chunks + [chunk]) == Joined(chunks) + chunk
  {
    var all := chunks + [chunk];
    if chunks == [] {
      assert all[1..] == [] && Joined(all) == chunk + Joined([]);
    } else {
      JoinedSnoc(chunks[1..], chunk);
      assert all[1..] == chunks[1..] + [chunk];
    }
  }

  function Pow2(n: nat): (r: nat)
    ensures r >= 1
  {
    if n == 0 then 1 else 2 * Pow2(n - 1)
  }

  lemma {:induction false} Pow2Add(m: nat, n: nat)
    ensures Pow2(m + n) == Pow2(m) * Pow2(n)
  {
    if m > 0 {
      Pow2Add(m - 1, n);
      assert Pow2(m + n) == 2 * Pow2(m - 1 + n);
      assert 2 * (Pow2(m - 1) * Pow2(n)) == (2 * Pow2(m - 1)) * Pow2(n);
    }
  }

  lemma {:induction false} Pow2Monotone(m: nat, n: nat)
    requires m <= n
    ensures Pow2(m) <= Pow2(n)
  {
    if m < n {
      Pow2Monotone(m, n - 1);
    }
  }

  lemma Pow2Values()
    ensures Pow2(1) == 2 && Pow2(2) == 4 && Pow2(3) == 8 && Pow2(4) == 16 && Pow2(5) == 32
    ensures Pow2(6) == 64 && Pow2(7) == 128 && Pow2(8) == 256
  {
  }

  lemma MulAtLeast(k: int, d: nat)
    requires k >= 1
    ensures k * d >= d
  {
    assert k * d == (k - 1) * d + d;
  }

  /** Quotient and remainder are unique. */
  lemma DivUnique(v: int, d: nat, q: int, r: int)
    requires d > 0 && v == q * d + r && 0 <= r < d
    ensures v / d == q && v % d == r
  {
    var q', r' := v / d, v % d;
    assert v == q' * d + r';
    assert q * d - q' * d == (q - q') * d && q' * d - q * d == (q' - q) * d;
    if q > q' {
      MulAtLeast(q - q', d);
    } else if q < q' {
      MulAtLeast(q' - q, d);
    }
  }

  /** `v >> n` */
  function Shr(v: nat, n: nat): nat {
    if n == 0 then v else Shr(v / 2, n - 1)
  }

  /** The low `n` bits of `v`, most significant first. */
  function ToBits(v: nat, n: nat): (bits: seq<bool>)
    ensures |bits| == n
  {
    if n == 0 then [] else ToBits(v / 2, n - 1) + [v % 2 == 1]
  }

  /** High bits, then low bits. */
  lemma {:induction false} ToBitsSplit(v: nat, n: nat, m: nat)
    ensures ToBits(v, n + m) == ToBits(Shr(v, m), n) + ToBits(v, m)
  {
    if m > 0 {
      ToBitsSplit(v / 2, n, m - 1);
    }
  }

  lemma HalfMod(v: nat, p: nat)
    requires p > 0
    ensures (v % (2 * p)) / 2 == (v / 2) % p && (v % (2 * p)) % 2 == v % 2
  {
    var q, r := v / (2 * p), v % (2 * p);
    var x := q * p;
    assert q * (2 * p) == 2 * x;
    assert v == 2 * x + r;
    assert v / 2 == x + r / 2;
    DivUnique(v / 2, p, q, r / 2);
  }

  /** Only the low bits count. */
  lemma {:induction false} ToBitsMod(v: nat, n: nat, k: nat)
    requires n <= k
    ensures ToBits(v % Pow2(k), n) == ToBits(v, n)
  {
    if n > 0 {
      HalfMod(v, Pow2(k - 1));
      ToBitsMod(v / 2, n - 1, k - 1);
    }
  }

  lemma {:induction false} ToBitsAppend(v: nat, c: nat, n: nat, m: nat)
    requires c < Pow2(m)
    ensures ToBits(v * Pow2(m) + c, n + m) == ToBits(v, n) + ToBits(c, m)
  {
    if m > 0 {
      var x := v * Pow2(m - 1);
      assert v * Pow2(m) == 2 * x;
      assert (2 * x + c) / 2 == x + c / 2 && (2 * x + c) % 2 == c % 2;
      ToBitsAppend(v, c / 2, n, m - 1);
    }
  }

  /** A number below 2^n is determined by its n bits. */
  lemma {:induction false} ToBitsInjective(a: nat, b: nat, n: nat)
    requires a < Pow2(n) && b < Pow2(n) && ToBits(a, n) == ToBits(b, n)
    ensures a == b
  {
    if n > 0 {
      assert ToBits(a, n)[n - 1] == ToBits(b, n)[n - 1];
      assert ToBits(a, n)[..n - 1] == ToBits(a / 2, n - 1) && ToBits(b, n)[..n - 1] == ToBits(b / 2, n - 1);
      ToBitsInjective(a / 2, b / 2, n - 1);
    }
  }

  function Ones(n: nat): (bits: seq<bool>)
    ensures |bits| == n
  {
    if n == 0 then [] else [true] + Ones(n - 1)
  }

  lemma {:induction false} OnesAre(n: nat)
    ensures ToBits(Pow2(n) - 1, n) == Ones(n)
  {
    if n > 0 {
      var p := Pow2(n - 1);
      assert (2 * p - 1) / 2 == p - 1 && (2 * p - 1) % 2 == 1;
      assert ToBits(2 * p - 1, n) == ToBits(p - 1, n - 1) + [true];
      OnesAre(n - 1);
      OnesPush(n - 1);
    }
  }

  lemma {:induction false} OnesPush(n: nat)
    ensures Ones(n) + [true] == Ones(n + 1)
  {
    if n > 0 {
      OnesPush(n - 1);
    }
  }

  lemma {:induction false} OnesSplit(n: nat, k: nat)
    ensures Ones(n) + Ones(k) == Ones(n + k)
  {
    if n > 0 {
      OnesSplit(n - 1, k);
      assert Ones(n) + Ones(k) == [true] + (Ones(n - 1) + Ones(k));
    } else {
      assert Ones(0) + Ones(k) == Ones(k);
    }
  }

  /** Bytes as one string of bits. */
  function BytesToBits(bs: seq<Byte>): (bits: seq<bool>)
    ensures |bits| == 8 * |bs|
  {
    if bs == [] then [] else ToBits(bs[0], 8) + BytesToBits(bs[1..])
  }

  lemma {:induction false} BytesToBitsAppend(a: seq<Byte>, b: seq<Byte>)
    ensures BytesToBits(a + b) == BytesToBits(a) + BytesToBits(b)
  {
    hide ToBits;
    if a == [] {
      assert a + b == b;
    } else {
      BytesToBitsAppend(a[1..], b);
      assert (a + b)[1..] == a[1..] + b;
    }
  }

  lemma BytesToBitsOne(b: Byte)
    ensures BytesToBits([b]) == ToBits(b, 8)
  {
    assert BytesToBits([b]) == ToBits(b, 8) + BytesToBits([]);
  }

  lemma {:induction false} BytesToBitsInjective(a: seq<Byte>, b: seq<Byte>)
    requires BytesToBits(a) == BytesToBits(b)
    ensures a == b
  {
    assert |a| == |b|;
    if a != [] {
      assert BytesToBits(a)[..8] == ToBits(a[0], 8) && BytesToBits(b)[..8] == ToBits(b[0], 8);
      assert BytesToBits(a)[8..] == BytesToBits(a[1..]) && BytesToBits(b)[8..] == BytesToBits(b[1..]);
      Pow2Values();
      ToBitsInjective(a[0], b[0], 8);
      BytesToBitsInjective(a[1..], b[1..]);
    }
  }

  lemma {:induction false} ToBitsAt(v: nat, n: nat, k: nat)
    requires k < n
    ensures ToBits(v, n)[n - 1 - k] == (Shr(v, k) % 2 == 1)
  {
    if k > 0 {
      ToBitsAt(v / 2, n - 1, k - 1);
    }
  }

  lemma {:induction false} BytesToBitsAt(bs: seq<Byte>, i: nat, j: nat)
    requires i < |bs| && j < 8
    ensures BytesToBits(bs)[8 * i + j] == ToBits(bs[i], 8)[j]
  {
    hide ToBits;
    if i > 0 {
      BytesToBitsAt(bs[1..], i - 1, j);
    }
  }
}
