/**
  The QPACK encoder stream of core/tincd/src/h3.c: how long the instruction at the head of the
  buffered bytes is, what it does, and what a stream of them does however it is cut into calls.
  */
module QpackStream {
  import opened Wrappers
  import opened Bits
  import opened PrefixInt
  import opened Huffman
  import opened StringLiteral
  import opened StaticTable
  import opened QpackTable

  /** Room for one string literal of the longest kind, with its NUL. */
  const STR_CAP := STR_MAX + 1

  /** The size of the input buffer. */
  const INPUT_CAP := 2 * STR_MAX + 64

  // ---------- Lengths ----------

  /** qd_string_len */
  function ScanString(buf: seq<Byte>, i: nat, bits: nat): (r: Scan)
    requires i <= |buf| && 1 <= bits <= 7
    ensures r.Whole? ==> 1 <= r.len <= 6 + STR_MAX && i + r.len <= |buf|
    ensures r.NeedMore? ==> |buf| - i < 6 + STR_MAX
  {
    match ScanInt(buf, i, bits)
    case Whole(n) =>
      var slen := GetInt(buf, i, bits).value.0;
      if slen > STR_MAX then Bad
      else if n + slen <= |buf| - i then Whole(n + slen)
      else NeedMore
    case other => other
  }

  function Then(a: Scan, buf: seq<Byte>): (r: Scan)
    requires a.Whole? ==> a.len <= |buf|
    ensures r.Whole? ==> a.Whole? && a.len < r.len <= |buf|
  {
    if !a.Whole? then a
    else
      var b := ScanString(buf, a.len, 7);
      if b.Whole? then Whole(a.len + b.len) else b
  }

  /** qpack_insn_len */
  function ScanInsn(buf: seq<Byte>): (r: Scan)
    ensures r.Whole? ==> 1 <= r.len <= |buf|
    ensures r.NeedMore? ==> |buf| < INPUT_CAP
  {
    if buf == [] then NeedMore
    else if buf[0] >= 0x80 then Then(ScanInt(buf, 0, 6), buf)
    else if buf[0] >= 0x40 then Then(ScanString(buf, 0, 5), buf)
    else ScanInt(buf, 0, 5)
  }

  /** qd_string_len */
  method StringLen(buf: seq<Byte>, i: nat, bits: nat) returns (r: Scan)
    requires i <= |buf| && 1 <= bits <= 7
    ensures r == ScanString(buf, i, bits)
  {
    hide ScanInt, GetInt;
    var slen;
    r, slen := IntLen(buf, i, bits);
    if !r.Whole? {
      return;
    }
    if slen > STR_MAX {
      return Bad;
    }
    r := if r.len + slen <= |buf| - i then Whole(r.len + slen) else NeedMore;
  }

  /** qpack_insn_len */
  method InsnLen(buf: seq<Byte>) returns (r: Scan)
    ensures r == ScanInsn(buf)
  {
    hide ScanInt, ScanString, GetInt;
    if |buf| == 0 {
      return NeedMore;
    }
    var a, v, b;
    if buf[0] >= 0x80 {
      a, v := IntLen(buf, 0, 6);
    } else if buf[0] >= 0x40 {
      a := StringLen(buf, 0, 5);
    } else {
      r, v := IntLen(buf, 0, 5);
      return;
    }
    if !a.Whole? {
      return a;
    }
    b := StringLen(buf, a.len, 7);
    r := if b.Whole? then Whole(a.len + b.len) else b;
  }

  lemma ScanStringStable(buf: seq<Byte>, more: seq<Byte>, i: nat, bits: nat)
    requires i <= |buf| && 1 <= bits <= 7 && !ScanString(buf, i, bits).NeedMore?
    ensures ScanString(buf + more, i, bits) == ScanString(buf, i, bits)
  {
    ScanIntStable(buf, more, i, bits);
  }

  /** A verdict on the head of the stream does not change when more bytes arrive. */
  lemma ScanInsnStable(buf: seq<Byte>, more: seq<Byte>)
    requires !ScanInsn(buf).NeedMore?
    ensures ScanInsn(buf + more) == ScanInsn(buf)
  {
    hide ScanString, ScanInt;
    var whole := buf + more;
    assert whole[0] == buf[0];
    if buf[0] >= 0x80 {
      ScanIntStable(buf, more, 0, 6);
      var a := ScanInt(buf, 0, 6);
      if a.Whole? {
        ScanStringStable(buf, more, a.len, 7);
      }
    } else if buf[0] >= 0x40 {
      ScanStringStable(buf, more, 0, 5);
      var a := ScanString(buf, 0, 5);
      if a.Whole? {
        ScanStringStable(buf, more, a.len, 7);
      }
    } else {
      ScanIntStable(buf, more, 0, 5);
    }
  }

  // ---------- Instructions ----------

  /** The entry a relative index names: 0 is the latest insertion. */
  function Relative(t: Table, v: nat): Option<Entry>
    requires t.WellFormed()
  {
    if v < |t.history| then t.Get(|t.history| - 1 - v) else None
  }

  /** qpack_insn, on the bytes of one instruction. */
  ghost function Executed(c: Code, t: Table, buf: seq<Byte>): (r: Option<Table>)
    requires t.WellFormed() && buf != []
    ensures r.Some? ==> r.value.WellFormed() && r.value.maxCapacity == t.maxCapacity
  {
    if buf[0] >= 0x80 then InsertNameRef(c, t, buf)
    else if buf[0] >= 0x40 then InsertLiteral(c, t, buf)
    else if buf[0] >= 0x20 then
      match GetInt(buf, 0, 5)
      case None => None
      case Some((v, _)) => Resized(t, v)
    else
      match GetInt(buf, 0, 5)
      case None => None
      case Some((v, _)) =>
        match Relative(t, v)
        case None => None
        case Some(e) => Inserted(t, e)
  }

  ghost function InsertNameRef(c: Code, t: Table, buf: seq<Byte>): (r: Option<Table>)
    requires t.WellFormed() && buf != []
    ensures r.Some? ==> r.value.WellFormed() && r.value.maxCapacity == t.maxCapacity
  {
    match GetInt(buf, 0, 6)
    case None => None
    case Some((v, i)) =>
      match GetString(c, buf, i, 7, STR_CAP)
      case None => None
      case Some((value, _)) =>
        if buf[0] >= 0xc0 then
          (if v >= STATIC_N then None else Inserted(t, Entry(StaticEntry(v).name, value)))
        else
          match Relative(t, v)
          case None => None
          case Some(e) => Inserted(t, Entry(e.name, value))
  }

  ghost function InsertLiteral(c: Code, t: Table, buf: seq<Byte>): (r: Option<Table>)
    requires t.WellFormed() && buf != []
    ensures r.Some? ==> r.value.WellFormed() && r.value.maxCapacity == t.maxCapacity
  {
    match GetString(c, buf, 0, 5, STR_CAP)
    case None => None
    case Some((name, i)) =>
      match GetString(c, buf, i, 7, STR_CAP)
      case None => None
      case Some((value, _)) => Inserted(t, Entry(name, value))
  }

  lemma StringFits(c: Code, buf: seq<Byte>, i: nat, bits: nat, cap: nat)
    requires ValidCode(c) && 1 <= bits <= 7 && cap > 0 && GetString(c, buf, i, bits, cap).Some?
    ensures |GetString(c, buf, i, bits, cap).value.0| < cap && NulFree(GetString(c, buf, i, bits, cap).value.0)
  {
    hide ValidCode, Pow2;
    var (_, j) := GetInt(buf, i, bits).value;
    var slen := GetInt(buf, i, bits).value.0;
    var str := buf[j..j + slen];
    if HBit(buf[i], bits) {
      DecodeExactly(c, str, Decode(c, str, cap).value, cap);
    }
  }

  lemma StaticFits(v: nat)
    requires v < STATIC_N
    ensures |StaticEntry(v).name| <= 64
  {
    hide StaticValue;
  }

  /** Every instruction keeps the table's invariant and only ever appends to its history. */
  lemma ExecuteKeeps(c: Code, t: Table, buf: seq<Byte>)
    requires ValidCode(c) && t.Invariant() && buf != [] && Executed(c, t, buf).Some?
    ensures Executed(c, t, buf).value.Invariant()
    ensures t.history <= Executed(c, t, buf).value.history
  {
    hide ValidCode, StaticEntry, GetString, GetInt, Inserted, Resized;
    if buf[0] >= 0x80 {
      var (v, i) := GetInt(buf, 0, 6).value;
      StringFits(c, buf, i, 7, STR_CAP);
      var value := GetString(c, buf, i, 7, STR_CAP).value.0;
      if buf[0] >= 0xc0 {
        StaticFits(v);
        InsertKeeps(t, Entry(StaticEntry(v).name, value));
      } else {
        InsertKeeps(t, Entry(Relative(t, v).value.name, value));
      }
    } else if buf[0] >= 0x40 {
      StringFits(c, buf, 0, 5, STR_CAP);
      var (name, i) := GetString(c, buf, 0, 5, STR_CAP).value;
      StringFits(c, buf, i, 7, STR_CAP);
      InsertKeeps(t, Entry(name, GetString(c, buf, i, 7, STR_CAP).value.0));
    } else if buf[0] >= 0x20 {
      ResizeKeeps(t, GetInt(buf, 0, 5).value.0);
    } else {
      InsertKeeps(t, Relative(t, GetInt(buf, 0, 5).value.0).value);
    }
  }

  // ---------- Streams ----------

  datatype Outcome = Failed | Going(table: Table, leftover: seq<Byte>)

  /** All whole instructions at the head of `bytes`, carried out in order. */
  ghost function Processed(c: Code, t: Table, bytes: seq<Byte>): (r: Outcome)
    requires t.WellFormed()
    ensures r.Going? ==> r.table.WellFormed() && ScanInsn(r.leftover).NeedMore?
    decreases |bytes|
  {
    match ScanInsn(bytes)
    case Bad => Failed
    case NeedMore => Going(t, bytes)
    case Whole(n) =>
      match Executed(c, t, bytes[..n])
      case None => Failed
      case Some(t') => Processed(c, t', bytes[n..])
  }

  /** Handing over bytes in two parts is handing them over at once. */
  lemma {:induction false} ProcessedSplit(c: Code, t: Table, a: seq<Byte>, b: seq<Byte>)
    requires t.WellFormed()
    ensures Processed(c, t, a + b)
            == match Processed(c, t, a) case Failed => Failed case Going(u, rest) => Processed(c, u, rest + b)
    decreases |a|
  {
    hide Executed, ScanInsn;
    if !ScanInsn(a).NeedMore? {
      ScanInsnStable(a, b);
      if ScanInsn(a).Whole? {
        var n := ScanInsn(a).len;
        assert (a + b)[..n] == a[..n];
        assert (a + b)[n..] == a[n..] + b;
        match Executed(c, t, a[..n])
        case None =>
        case Some(u) => ProcessedSplit(c, u, a[n..], b);
      }
    }
  }

  lemma {:induction false} ProcessedKeeps(c: Code, t: Table, bytes: seq<Byte>)
    requires ValidCode(c) && t.Invariant() && Processed(c, t, bytes).Going?
    ensures Processed(c, t, bytes).table.Invariant()
    ensures Processed(c, t, bytes).table.maxCapacity == t.maxCapacity
              && t.history <= Processed(c, t, bytes).table.history
    decreases |bytes|
  {
    hide Executed, ScanInsn, ValidCode;
    if ScanInsn(bytes).Whole? {
      var n := ScanInsn(bytes).len;
      assert t.WellFormed();
      ExecuteKeeps(c, t, bytes[..n]);
      ProcessedKeeps(c, Executed(c, t, bytes[..n]).value, bytes[n..]);
    }
  }

  /** One call after another, stopping at the first that fails. */
  ghost function Fed(c: Code, t: Table, leftover: seq<Byte>, chunks: seq<seq<Byte>>): Outcome
    requires t.WellFormed()
    decreases |chunks|
  {
    if chunks == [] then Going(t, leftover)
    else
      match Processed(c, t, leftover + chunks[0])
      case Failed => Failed
      case Going(u, rest) => Fed(c, u, rest, chunks[1..])
  }

  /** However the stream is cut into calls, the outcome is that of a single call. */
  lemma {:induction false} SegmentationDoesNotMatter(c: Code, t: Table, leftover: seq<Byte>, chunks: seq<seq<Byte>>)
    requires t.WellFormed() && ScanInsn(leftover).NeedMore?
    ensures Fed(c, t, leftover, chunks) == Processed(c, t, leftover + Joined(chunks))
    decreases |chunks|
  {
    hide Executed, ScanInsn;
    if chunks == [] {
      assert leftover + [] == leftover;
    } else {
      var first, rest := leftover + chunks[0], Joined(chunks[1..]);
      assert leftover + Joined(chunks) == first + rest;
      ProcessedSplit(c, t, first, rest);
      match Processed(c, t, first)
      case Failed =>
      case Going(u, l) => SegmentationDoesNotMatter(c, u, l, chunks[1..]);
    }
  }
}
