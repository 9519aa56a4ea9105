/**
  The instructions of the QPACK encoder stream (section 4.3 of RFC 9204) from the encoder's side: the
  bytes of each, with dynamic entries named by their absolute index, and what the decoder of
  core/tincd/src/h3.c makes of them.
  */
module QpackInsn {
  import opened Wrappers
  import opened Bits
  import opened PrefixInt
  import opened Huffman
  import opened StringLiteral
  import opened StaticTable
  import opened QpackTable
  import opened QpackStream

  datatype Insn =
    | StaticName(idx: nat, value: seq<Byte>)
    | DynamicName(index: nat, value: seq<Byte>)
    | LiteralName(name: seq<Byte>, value: seq<Byte>)
    | Capacity(v: nat)
    | Duplicate(index: nat)

  /** Dynamic entries are named among those inserted so far. */
  predicate Posed(insn: Insn, inserts: nat) {
    insn.DynamicName? || insn.Duplicate? ==> insn.index < inserts
  }

  ghost function InsnBytes(c: Code, inserts: nat, insn: Insn): seq<Byte>
    requires ValidCode(c) && Posed(insn, inserts)
  {
    Flags();
    match insn
    case StaticName(idx, value) => IntBytes(0xc0, 6, idx) + StringBytes(c, 0, 7, value)
    case DynamicName(index, value) => IntBytes(0x80, 6, inserts - 1 - index) + StringBytes(c, 0, 7, value)
    case LiteralName(name, value) => StringBytes(c, 0x40, 5, name) + StringBytes(c, 0, 7, value)
    case Capacity(v) => IntBytes(0x20, 5, v)
    case Duplicate(index) => IntBytes(0, 5, inserts - 1 - index)
  }

  lemma Flags()
    ensures PrefixFree(0xc0, 6) && PrefixFree(0x80, 6) && PrefixFree(0x20, 5) && PrefixFree(0, 5)
    ensures StringPrefix(0, 7) && StringPrefix(0x40, 5)
  {
    Pow2Values();
  }

  // ---------- What an instruction is for ----------

  /** The entry to insert, if the instruction names one. */
  function ToInsert(t: Table, insn: Insn): Option<Entry>
    requires t.WellFormed() && Posed(insn, |t.history|)
  {
    match insn
    case StaticName(idx, value) =>
      if idx < STATIC_N && Keepable(value) then Some(Entry(StaticEntry(idx).name, value)) else None
    case DynamicName(index, value) =>
      if IsLive(t, index) && |t.history| - 1 - index <= UINT32_MAX && Keepable(value) then
        Some(Entry(t.history[index].name, value))
      else None
    case LiteralName(name, value) => if Keepable(name) && Keepable(value) then Some(Entry(name, value)) else None
    case Duplicate(index) =>
      if IsLive(t, index) && |t.history| - 1 - index <= UINT32_MAX then Some(t.history[index]) else None
    case Capacity(_) => None
  }

  /** The latest `k` entries are kept: they fit `limit`, and no more of the live ones would. */
  predicate KeepsLatest(t: Table, limit: int, k: nat)
    requires t.WellFormed()
  {
    && k <= t.live && TotalSize(t.history[|t.history| - k..]) <= limit
    && (k < t.live ==> TotalSize(t.history[|t.history| - k - 1..]) > limit)
  }

  /** `u` is `t` after the instruction. */
  predicate Follows(t: Table, insn: Insn, u: Table)
    requires t.WellFormed() && Posed(insn, |t.history|)
  {
    && u.WellFormed() && u.maxCapacity == t.maxCapacity
    && match insn
       case Capacity(v) =>
         v <= t.maxCapacity && v <= UINT32_MAX && u.capacity == v && u.history == t.history && KeepsLatest(t, v, u.live)
       case _ =>
         match ToInsert(t, insn)
         case None => false
         case Some(e) =>
           && u.capacity == t.capacity && u.history == t.history + [e] && u.live > 0
           && KeepsLatest(t, t.capacity - (|e.name| + |e.value| + 32), u.live - 1)
  }

  /** There is at most one such table. */
  lemma FollowsOne(t: Table, insn: Insn, u: Table, w: Table)
    requires t.WellFormed() && Posed(insn, |t.history|) && Follows(t, insn, u) && Follows(t, insn, w)
    ensures u == w
  {
    hide ToInsert, StaticEntry, KeepsLatest;
    if insn.Capacity? {
      KeepsOne(t, insn.v, u.live, w.live);
    } else {
      var e := ToInsert(t, insn).value;
      KeepsOne(t, t.capacity - (|e.name| + |e.value| + 32), u.live - 1, w.live - 1);
    }
  }

  lemma KeepsOne(t: Table, limit: int, a: nat, b: nat)
    requires t.WellFormed() && KeepsLatest(t, limit, a) && KeepsLatest(t, limit, b)
    ensures a == b
  {
    hide TotalSize;
    if a < b {
      LongerIsLarger(t, a + 1, b);
    } else if b < a {
      LongerIsLarger(t, b + 1, a);
    }
  }

  lemma {:induction false} LongerIsLarger(t: Table, k: nat, m: nat)
    requires t.WellFormed() && k <= m <= t.live
    ensures TotalSize(t.history[|t.history| - k..]) <= TotalSize(t.history[|t.history| - m..])
    decreases m - k
  {
    if k < m {
      LongerIsLarger(t, k, m - 1);
      var es := t.history[|t.history| - m..];
      assert es[1..] == t.history[|t.history| - (m - 1)..];
    }
  }

  /** The table after the instruction, if it is accepted. */
  function Effect(t: Table, insn: Insn): (r: Option<Table>)
    requires t.WellFormed() && Posed(insn, |t.history|)
    ensures r.Some? ==> r.value.WellFormed()
  {
    match insn
    case Capacity(v) => if v <= UINT32_MAX then Resized(t, v) else None
    case _ =>
      match ToInsert(t, insn)
      case None => None
      case Some(e) => Inserted(t, e)
  }

  lemma EvictedKeeps(t: Table, limit: nat)
    requires t.WellFormed()
    ensures KeepsLatest(t, limit, Evicted(t, limit).live)
  {
    hide TotalSize, Evicted;
    var u := Evicted(t, limit);
    assert u.Live() == t.history[|t.history| - u.live..];
    if u.live < t.live {
      EvictedKeepsMost(t, limit, u.live + 1);
      assert t.(live := u.live + 1).Live() == t.history[|t.history| - u.live - 1..];
    }
  }

  lemma InsertedKeeps(t: Table, e: Entry)
    requires t.WellFormed()
    ensures var r, limit := Inserted(t, e), t.capacity - (|e.name| + |e.value| + 32);
            if r.None? then limit < 0
            else
              && r.value == t.(history := t.history + [e], live := r.value.live)
              && KeepsLatest(t, limit, r.value.live - 1)
  {
    hide TotalSize, Evicted;
    if Size(e) <= t.capacity {
      EvictedKeeps(t, t.capacity - Size(e));
    }
  }

  lemma ResizedKeeps(t: Table, v: nat)
    requires t.WellFormed() && v <= t.maxCapacity
    ensures var r := Resized(t, v);
            r == Some(t.(capacity := v, live := r.value.live)) && KeepsLatest(t, v, r.value.live)
  {
    hide TotalSize, Evicted;
    EvictedKeeps(t.(capacity := v), v);
  }

  /** An instruction is accepted exactly when some table follows, and leads to it. */
  lemma EffectFollows(t: Table, insn: Insn)
    requires t.WellFormed() && Posed(insn, |t.history|)
    ensures Effect(t, insn).Some? ==> Follows(t, insn, Effect(t, insn).value)
    ensures Effect(t, insn).None? ==> forall u :: !Follows(t, insn, u)
  {
    hide ToInsert, KeepsLatest, Inserted, Resized, Posed;
    if insn.Capacity? {
      if insn.v <= t.maxCapacity {
        ResizedKeeps(t, insn.v);
      }
    } else if ToInsert(t, insn).Some? {
      var e := ToInsert(t, insn).value;
      InsertedKeeps(t, e);
      forall u: Table | Effect(t, insn).None? && u.live > 0 {
        NoRoom(t, t.capacity - (|e.name| + |e.value| + 32), u.live - 1);
      }
    }
  }

  lemma NoRoom(t: Table, limit: int, k: nat)
    requires t.WellFormed() && limit < 0
    ensures !KeepsLatest(t, limit, k)
  {
  }

  // ---------- The decoder on those bytes ----------

  /** How the length of a literal is written. */
  ghost function CodedLength(c: Code, s: seq<Byte>): nat
    requires ValidCode(c)
  {
    CodeSize(c);
    if (BitCount(c, s) + 7) / 8 >= |s| then |s| else (BitCount(c, s) + 7) / 8
  }

  lemma ScanStringBack(c: Code, pre: seq<Byte>, post: seq<Byte>, flags: Byte, bits: nat, s: seq<Byte>)
    requires ValidCode(c) && StringPrefix(flags, bits)
    ensures var bs := StringBytes(c, flags, bits, s);
            ScanString(pre + bs + post, |pre|, bits) == if CodedLength(c, s) <= STR_MAX then Whole(|bs|) else Bad
  {
    hide ValidCode, Pow2, PrefixFree, IntBytes, HuffBytes, Encodes, BitCount, GetInt, ScanInt;
    StringPrefixFits(flags, bits);
    CodeSize(c);
    if (BitCount(c, s) + 7) / 8 >= |s| {
      ScanLiteral(pre, post, flags, bits, s);
    } else {
      ScanLiteral(pre, post, flags + Pow2(bits), bits, HuffBytes(c, s));
    }
  }

  lemma ScanLiteral(pre: seq<Byte>, post: seq<Byte>, flags: Byte, bits: nat, text: seq<Byte>)
    requires PrefixFree(flags, bits) && bits <= 7
    ensures var bs := IntBytes(flags, bits, |text|) + text;
            ScanString(pre + bs + post, |pre|, bits) == if |text| <= STR_MAX then Whole(|bs|) else Bad
  {
    hide Pow2, PrefixFree, IntBytes, GetInt, ScanInt;
    var head := IntBytes(flags, bits, |text|);
    ScanIntBack(pre, text + post, flags, bits, |text|);
    LiteralAt(pre, post, flags, bits, text);
    assert pre + head + (text + post) == pre + (head + text) + post;
  }

  /** The first bytes tell the instructions apart. */
  lemma FirstBytes(c: Code, v: nat, s: seq<Byte>)
    requires ValidCode(c)
    ensures PrefixFree(0xc0, 6) && PrefixFree(0x80, 6) && PrefixFree(0x20, 5) && PrefixFree(0, 5)
    ensures StringPrefix(0x40, 5)
    ensures 0xc0 <= IntBytes(0xc0, 6, v)[0] && 0x80 <= IntBytes(0x80, 6, v)[0] < 0xc0
    ensures 0x20 <= IntBytes(0x20, 5, v)[0] < 0x40 && IntBytes(0, 5, v)[0] < 0x20
    ensures StringBytes(c, 0x40, 5, s) != [] && 0x40 <= StringBytes(c, 0x40, 5, s)[0] < 0x80
  {
    Flags();
    Pow2Values();
    hide ValidCode, IntBytes, PrefixFree, StringPrefix, HuffBytes, Pow2, BitCount, Encodes;
    FirstByteOf(0xc0, 6, v);
    FirstByteOf(0x80, 6, v);
    FirstByteOf(0x20, 5, v);
    FirstByteOf(0, 5, v);
    CodeSize(c);
    StringPrefixFits(0x40, 5);
    FirstByteOf(0x40, 5, |s|);
    FirstByteOf(0x60, 5, |HuffBytes(c, s)|);
  }

  /** The string after a first part. */
  lemma SecondPart(c: Code, first: seq<Byte>, value: seq<Byte>, post: seq<Byte>)
    requires ValidCode(c) && first != []
    ensures StringPrefix(0, 7)
    ensures var bs := first + StringBytes(c, 0, 7, value);
            && Then(Whole(|first|), bs + post)
               == (if CodedLength(c, value) <= STR_MAX then Whole(|bs|) else Bad)
            && GetString(c, bs, |first|, 7, STR_CAP) == (if Keepable(value) then Some((value, |bs|)) else None)
  {
    hide ValidCode, StringBytes, ScanString, GetString, NulFree, CodedLength;
    Flags();
    var second := StringBytes(c, 0, 7, value);
    ScanStringBack(c, first, post, 0, 7, value);
    StringReadBack(first, [], c, 0, 7, value, STR_CAP);
    assert first + second + [] == first + second;
    assert (first + second) + post == first + second + post;
  }

  /** An outcome continued with the bytes after the instruction. */
  ghost function Continue(c: Code, next: Option<Table>, post: seq<Byte>): Outcome
    requires next.Some? ==> next.value.WellFormed()
  {
    match next case None => Failed case Some(u) => Processed(c, u, post)
  }

  lemma WholeInsn(c: Code, t: Table, bs: seq<Byte>, post: seq<Byte>)
    requires t.WellFormed() && bs != [] && ScanInsn(bs + post) == Whole(|bs|)
    ensures Processed(c, t, bs + post) == Continue(c, Executed(c, t, bs), post)
  {
    hide ScanInsn, Executed;
    assert (bs + post)[..|bs|] == bs && (bs + post)[|bs|..] == post;
  }

  lemma BadInsn(c: Code, t: Table, bs: seq<Byte>, post: seq<Byte>)
    requires t.WellFormed() && ScanInsn(bs + post) == Bad
    ensures Processed(c, t, bs + post) == Failed
  {
  }

  /** The integer an instruction begins with. */
  lemma FirstPart(post: seq<Byte>, flags: Byte, bits: nat, v: nat)
    requires PrefixFree(flags, bits)
    ensures var bs := IntBytes(flags, bits, v);
            && ScanInt(bs + post, 0, bits) == (if v <= UINT32_MAX then Whole(|bs|) else Bad)
            && GetInt(bs + post, 0, bits) == (if v <= UINT32_MAX then Some((v, |bs|)) else None)
            && (bs + post)[0] == bs[0]
  {
    hide PrefixFree, IntBytes, GetInt, ScanInt;
    ScanIntBack([], post, flags, bits, v);
    IntReadBack([], post, flags, bits, v);
    assert [] + IntBytes(flags, bits, v) + post == IntBytes(flags, bits, v) + post;
  }

  lemma NameRefBack(c: Code, t: Table, v: nat, value: seq<Byte>, post: seq<Byte>, stat: bool)
    requires ValidCode(c) && t.WellFormed()
    ensures PrefixFree(0xc0, 6) && PrefixFree(0x80, 6) && StringPrefix(0, 7)
    ensures var named := if stat then (if v < STATIC_N then Some(StaticEntry(v)) else None) else Relative(t, v);
            Processed(c, t, IntBytes(if stat then 0xc0 else 0x80, 6, v) + StringBytes(c, 0, 7, value) + post)
            == if v > UINT32_MAX || !Keepable(value) || named.None? then Failed
               else Continue(c, Inserted(t, Entry(named.value.name, value)), post)
  {
    hide ValidCode, PrefixFree, StringPrefix, IntBytes, StringBytes, GetInt, ScanInt, GetString, NulFree, StaticEntry,
      Relative, Inserted, Processed, CodedLength, Then, Keepable;
    Flags();
    var flags: Byte := if stat then 0xc0 else 0x80;
    var a, b := IntBytes(flags, 6, v), StringBytes(c, 0, 7, value);
    FirstBytes(c, v, []);
    FirstPart(b + post, flags, 6, v);
    FirstPart(b, flags, 6, v);
    SecondPart(c, a, value, post);
    TooLong(c, value);
    assert a + b + post == a + (b + post);
    if v > UINT32_MAX {
      ThenBad(Bad, a + b + post);
      BadInsn(c, t, a + b, post);
    } else if CodedLength(c, value) > STR_MAX {
      BadInsn(c, t, a + b, post);
    } else {
      WholeInsn(c, t, a + b, post);
    }
  }

  lemma TooLong(c: Code, s: seq<Byte>)
    requires ValidCode(c)
    ensures Keepable(s) ==> CodedLength(c, s) <= STR_MAX
  {
  }

  lemma ThenBad(a: Scan, buf: seq<Byte>)
    requires a == Bad
    ensures Then(a, buf) == Bad
  {
  }

  lemma LiteralBack(c: Code, t: Table, name: seq<Byte>, value: seq<Byte>, post: seq<Byte>)
    requires ValidCode(c) && t.WellFormed()
    ensures StringPrefix(0x40, 5) && StringPrefix(0, 7)
    ensures Processed(c, t, StringBytes(c, 0x40, 5, name) + StringBytes(c, 0, 7, value) + post)
            == if !Keepable(name) || !Keepable(value) then Failed
               else Continue(c, Inserted(t, Entry(name, value)), post)
  {
    hide ValidCode, PrefixFree, StringPrefix, StringBytes, ScanString, GetString, NulFree, Inserted, Processed,
      CodedLength, Then, Keepable;
    Flags();
    var a, b := StringBytes(c, 0x40, 5, name), StringBytes(c, 0, 7, value);
    FirstName(c, name, b, post);
    SecondPart(c, a, value, post);
    TooLong(c, name);
    TooLong(c, value);
    if CodedLength(c, name) > STR_MAX {
      ThenBad(Bad, a + b + post);
      BadInsn(c, t, a + b, post);
    } else if CodedLength(c, value) > STR_MAX {
      BadInsn(c, t, a + b, post);
    } else {
      WholeInsn(c, t, a + b, post);
    }
  }

  /** The name an instruction begins with. */
  lemma FirstName(c: Code, name: seq<Byte>, b: seq<Byte>, post: seq<Byte>)
    requires ValidCode(c)
    ensures StringPrefix(0x40, 5)
    ensures var a := StringBytes(c, 0x40, 5, name);
            && a != [] && 0x40 <= a[0] < 0x80 && (a + b)[0] == a[0] && (a + b + post)[0] == a[0]
            && ScanString(a + b + post, 0, 5) == (if CodedLength(c, name) <= STR_MAX then Whole(|a|) else Bad)
            && GetString(c, a + b, 0, 5, STR_CAP) == (if Keepable(name) then Some((name, |a|)) else None)
  {
    hide ValidCode, PrefixFree, StringPrefix, StringBytes, ScanString, GetString, NulFree, CodedLength, Keepable;
    FirstBytes(c, 0, name);
    var a := StringBytes(c, 0x40, 5, name);
    ScanStringBack(c, [], b + post, 0x40, 5, name);
    StringReadBack([], b, c, 0x40, 5, name, STR_CAP);
    KeepableFits(name);
    assert [] + a + (b + post) == a + b + post && [] + a + b == a + b;
  }

  lemma CapacityBack(c: Code, t: Table, v: nat, post: seq<Byte>)
    requires ValidCode(c) && t.WellFormed()
    ensures PrefixFree(0x20, 5)
    ensures Processed(c, t, IntBytes(0x20, 5, v) + post)
            == if v > UINT32_MAX then Failed else Continue(c, Resized(t, v), post)
  {
    hide ValidCode, PrefixFree, StringPrefix, IntBytes, GetInt, ScanInt, Resized, Processed;
    Flags();
    var a := IntBytes(0x20, 5, v);
    FirstBytes(c, v, []);
    FirstPart(post, 0x20, 5, v);
    FirstPart([], 0x20, 5, v);
    assert a + [] == a;
    if v > UINT32_MAX {
      BadInsn(c, t, a, post);
    } else {
      WholeInsn(c, t, a, post);
    }
  }

  lemma DuplicateBack(c: Code, t: Table, v: nat, post: seq<Byte>)
    requires ValidCode(c) && t.WellFormed()
    ensures PrefixFree(0, 5)
    ensures Processed(c, t, IntBytes(0, 5, v) + post)
            == if v > UINT32_MAX || Relative(t, v).None? then Failed
               else Continue(c, Inserted(t, Relative(t, v).value), post)
  {
    hide ValidCode, PrefixFree, StringPrefix, IntBytes, GetInt, ScanInt, Inserted, Relative, Processed;
    Flags();
    var a := IntBytes(0, 5, v);
    FirstBytes(c, v, []);
    FirstPart(post, 0, 5, v);
    FirstPart([], 0, 5, v);
    assert a + [] == a;
    if v > UINT32_MAX {
      BadInsn(c, t, a, post);
    } else {
      WholeInsn(c, t, a, post);
    }
  }

  /** A relative index is the absolute one, counted from the latest insertion. */
  lemma RelativeIs(t: Table, index: nat)
    requires t.WellFormed() && index < |t.history|
    ensures Relative(t, |t.history| - 1 - index) == if IsLive(t, index) then Some(t.history[index]) else None
  {
  }

  /**
    In front of any other bytes, an instruction is taken for exactly its own bytes; it is refused, or it
    has its effect and the rest follows.
    */
  lemma InsnReadBack(c: Code, t: Table, insn: Insn, post: seq<Byte>)
    requires ValidCode(c) && t.WellFormed() && Posed(insn, |t.history|)
    ensures Processed(c, t, InsnBytes(c, |t.history|, insn) + post) == Continue(c, Effect(t, insn), post)
  {
    hide ValidCode, IntBytes, StringBytes, Keepable, StaticEntry, Relative, Inserted, Resized, Processed, PrefixFree,
      StringPrefix;
    match insn
    case StaticName(idx, value) =>
      NameRefBack(c, t, idx, value, post, true);
    case DynamicName(index, value) =>
      RelativeIs(t, index);
      NameRefBack(c, t, |t.history| - 1 - index, value, post, false);
    case LiteralName(name, value) =>
      LiteralBack(c, t, name, value, post);
    case Capacity(v) =>
      CapacityBack(c, t, v, post);
    case Duplicate(index) =>
      RelativeIs(t, index);
      DuplicateBack(c, t, |t.history| - 1 - index, post);
  }

  // ---------- Whole streams ----------

  /** The instructions of an encoder that keeps to what the table accepts. */
  ghost predicate Accepted(t: Table, insns: seq<Insn>)
    requires t.WellFormed()
    decreases |insns|
  {
    insns == [] || (Posed(insns[0], |t.history|) && Effect(t, insns[0]).Some?
                    && Accepted(Effect(t, insns[0]).value, insns[1..]))
  }

  ghost function After(t: Table, insns: seq<Insn>): (u: Table)
    requires t.WellFormed() && Accepted(t, insns)
    ensures u.WellFormed()
    decreases |insns|
  {
    if insns == [] then t else After(Effect(t, insns[0]).value, insns[1..])
  }

  ghost function EncoderBytes(c: Code, t: Table, insns: seq<Insn>): seq<Byte>
    requires ValidCode(c) && t.WellFormed() && Accepted(t, insns)
    decreases |insns|
  {
    if insns == [] then []
    else InsnBytes(c, |t.history|, insns[0]) + EncoderBytes(c, Effect(t, insns[0]).value, insns[1..])
  }

  /** The decoder's table follows the encoder's, with nothing left over. */
  lemma {:induction false} EncoderReadBack(c: Code, t: Table, insns: seq<Insn>)
    requires ValidCode(c) && t.WellFormed() && Accepted(t, insns)
    ensures Processed(c, t, EncoderBytes(c, t, insns)) == Going(After(t, insns), [])
    decreases |insns|
  {
    hide ValidCode, InsnBytes, Effect, Executed;
    if insns != [] {
      var u := Effect(t, insns[0]).value;
      InsnReadBack(c, t, insns[0], EncoderBytes(c, u, insns[1..]));
      EncoderReadBack(c, u, insns[1..]);
    }
  }
}
