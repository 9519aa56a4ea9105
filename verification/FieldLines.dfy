/**
  Field sections (section 4.5 of RFC 9204) from the encoder's side: the bytes of the section prefix and
  of every form of field line, with dynamic entries named by their absolute index, and what
  h3_decode_request of core/tincd/src/h3.c makes of a whole section of them.
  */
module FieldLines {
  import opened Wrappers
  import opened Bits
  import opened PrefixInt
  import opened Huffman
  import opened StringLiteral
  import opened StaticTable
  import opened QpackTable
  import opened QpackStream
  import opened FieldSection
  import opened RequestFields
  import QpackInsn

  // ---------- The section prefix ----------

  /** Required Insert Count and Base, the latter as a signed distance from the former. */
  function PrefixBytes(maxEntries: nat, ric: nat, base: nat): seq<Byte>
    requires ric > 0 ==> maxEntries > 0
  {
    PrefixFlags();
    IntBytes(0, 8, EncodeRic(maxEntries, ric))
    + if base >= ric then IntBytes(0, 7, base - ric) else IntBytes(0x80, 7, ric - base - 1)
  }

  lemma PrefixFlags()
    ensures PrefixFree(0, 8) && PrefixFree(0, 7) && PrefixFree(0x80, 7)
  {
    Pow2Values();
  }

  /** The decoder can tell the count and take in the numbers. */
  predicate PrefixReadable(q: Option<Table>, ric: nat, base: nat)
    requires ric > 0 ==> MaxEntries(q) > 0
  {
    && (ric == 0 || InWindow(MaxEntries(q), Inserts(q), ric))
    && EncodeRic(MaxEntries(q), ric) <= UINT32_MAX
    && (if base >= ric then base - ric else ric - base - 1) <= UINT32_MAX
  }

  lemma SignByte(v: nat)
    ensures PrefixFree(0, 7) && PrefixFree(0x80, 7)
    ensures IntBytes(0, 7, v)[0] < 0x80 <= IntBytes(0x80, 7, v)[0]
  {
    Pow2Values();
    PrefixFlags();
    FirstByteOf(0, 7, v);
    FirstByteOf(0x80, 7, v);
  }

  lemma IntAt(pre: seq<Byte>, post: seq<Byte>, flags: Byte, bits: nat, v: nat)
    requires PrefixFree(flags, bits)
    ensures var bs := IntBytes(flags, bits, v);
            && (pre + bs + post)[|pre|] == bs[0]
            && GetInt(pre + bs + post, |pre|, bits) == if v <= UINT32_MAX then Some((v, |pre| + |bs|)) else None
  {
    hide PrefixFree, IntBytes, GetInt;
    IntReadBack(pre, post, flags, bits, v);
  }

  /** The prefix is read as the count and the base it was written for exactly when it is readable. */
  lemma PrefixReadBack(q: Option<Table>, ric: nat, base: nat, post: seq<Byte>)
    requires ric > 0 ==> MaxEntries(q) > 0
    ensures var bs := PrefixBytes(MaxEntries(q), ric, base);
            Prefix(q, bs + post) == Some((ric, base, |bs|)) <==> PrefixReadable(q, ric, base)
  {
    hide IntBytes, GetInt, DecodeRic, EncodeRic, InWindow, PrefixFree;
    PrefixFlags();
    var enc := EncodeRic(MaxEntries(q), ric);
    var v := if base >= ric then base - ric else ric - base - 1;
    var flags: Byte := if base >= ric then 0 else 0x80;
    SignByte(v);
    var a, b := IntBytes(0, 8, enc), IntBytes(flags, 7, v);
    var fs := a + b + post;
    assert fs == [] + a + (b + post);
    assert PrefixBytes(MaxEntries(q), ric, base) == a + b;
    IntAt([], b + post, 0, 8, enc);
    IntAt(a, post, flags, 7, v);
    RicExactly(MaxEntries(q), Inserts(q), enc, ric);
    RicNotZero(MaxEntries(q), ric);
  }

  lemma RicNotZero(maxEntries: nat, ric: nat)
    requires ric > 0 ==> maxEntries > 0
    ensures EncodeRic(maxEntries, ric) == 0 <==> ric == 0
  {
  }

  // ---------- Field lines ----------

  /** The forms of section 4.5; `never` is the mark that an intermediary must not index the field. */
  datatype FieldLine =
    | IndexedStatic(idx: nat)
    | IndexedDynamic(index: nat)
    | NamedStatic(never: bool, idx: nat, value: seq<Byte>)
    | NamedDynamic(never: bool, index: nat, value: seq<Byte>)
    | Spelled(never: bool, name: seq<Byte>, value: seq<Byte>)

  lemma LineFlags(never: bool)
    ensures PrefixFree(0xc0, 6) && PrefixFree(0x80, 6) && PrefixFree(0x10, 4)
    ensures PrefixFree(if never then 0x70 else 0x50, 4) && PrefixFree(if never then 0x60 else 0x40, 4)
    ensures PrefixFree(if never then 8 else 0, 3)
    ensures StringPrefix(if never then 0x30 else 0x20, 3) && StringPrefix(0, 7)
  {
    Pow2Values();
  }

  /** An entry inserted before the base is counted down from it, one inserted since is counted up. */
  ghost function LineBytes(c: Code, base: nat, line: FieldLine): seq<Byte>
    requires ValidCode(c)
  {
    LineFlags(true);
    LineFlags(false);
    match line
    case IndexedStatic(idx) => IntBytes(0xc0, 6, idx)
    case IndexedDynamic(index) =>
      if index < base then IntBytes(0x80, 6, base - 1 - index) else IntBytes(0x10, 4, index - base)
    case NamedStatic(never, idx, value) =>
      IntBytes(if never then 0x70 else 0x50, 4, idx) + StringBytes(c, 0, 7, value)
    case NamedDynamic(never, index, value) =>
      (if index < base then IntBytes(if never then 0x60 else 0x40, 4, base - 1 - index)
       else IntBytes(if never then 8 else 0, 3, index - base))
      + StringBytes(c, 0, 7, value)
    case Spelled(never, name, value) =>
      StringBytes(c, if never then 0x30 else 0x20, 3, name) + StringBytes(c, 0, 7, value)
  }

  /** The decoder can take in the reference, and the entry is within the section's count and still there. */
  predicate Nameable(q: Option<Table>, index: nat, base: nat, ric: nat)
    requires q.Some? ==> q.value.WellFormed()
  {
    && q.Some? && index < ric && IsLive(q.value, index)
    && (if index < base then base - 1 - index else index - base) <= UINT32_MAX
  }

  /** The field a line stands for, if the decoder can know it. */
  function Meaning(q: Option<Table>, base: nat, ric: nat, line: FieldLine): (r: Option<Entry>)
    requires q.Some? ==> q.value.WellFormed()
  {
    match line
    case IndexedStatic(idx) => if idx < STATIC_N then Some(StaticEntry(idx)) else None
    case IndexedDynamic(index) => if Nameable(q, index, base, ric) then Some(q.value.history[index]) else None
    case NamedStatic(_, idx, value) =>
      if idx < STATIC_N && Keepable(value) then Some(Entry(StaticEntry(idx).name, value)) else None
    case NamedDynamic(_, index, value) =>
      if Nameable(q, index, base, ric) && Keepable(value) then Some(Entry(q.value.history[index].name, value)) else None
    case Spelled(_, name, value) => if Keepable(name) && Keepable(value) then Some(Entry(name, value)) else None
  }

  /** What `Line` answers for `e` ending at `end`. */
  function Until(e: Option<Entry>, end: nat): Option<(Entry, nat)> {
    match e case None => None case Some(f) => Some((f, end))
  }

  lemma ReferenceAt(q: Option<Table>, pre: seq<Byte>, post: seq<Byte>, flags: Byte, bits: nat, v: nat, kind: RefKind,
                    base: nat, ric: nat)
    requires (q.Some? ==> q.value.WellFormed()) && PrefixFree(flags, bits)
    ensures var bs := IntBytes(flags, bits, v);
            && Reference(q, pre + bs + post, |pre|, bits, kind, base, ric)
               == Until(if v <= UINT32_MAX then Referred(q, v, kind, base, ric) else None, |pre| + |bs|)
            && flags <= (pre + bs + post)[|pre|] < flags + Pow2(bits)
  {
    hide IntBytes, GetInt, Referred, PrefixFree, Pow2;
    IntAt(pre, post, flags, bits, v);
    FirstByteOf(flags, bits, v);
  }

  lemma ValueAt(c: Code, pre: seq<Byte>, post: seq<Byte>, e: Entry, value: seq<Byte>)
    requires ValidCode(c)
    ensures StringPrefix(0, 7)
    ensures var bs := StringBytes(c, 0, 7, value);
            WithValue(c, pre + bs + post, Some((e, |pre|)))
            == Until(if Keepable(value) then Some(Entry(e.name, value)) else None, |pre| + |bs|)
  {
    hide ValidCode, StringBytes, GetString, NulFree;
    StringReadBack(pre, post, c, 0, 7, value, STR_CAP);
  }

  /** Each way of counting finds the entry of that absolute index, within the count and still there. */
  lemma ReferredIs(q: Option<Table>, index: nat, base: nat, ric: nat)
    requires q.Some? ==> q.value.WellFormed()
    ensures var e := if q.Some? && index < ric && IsLive(q.value, index) then Some(q.value.history[index]) else None;
            if index < base then Referred(q, base - 1 - index, RelativeRef, base, ric) == e
            else Referred(q, index - base, PostBaseRef, base, ric) == e
  {
  }

  /** A whole field by reference. */
  lemma IndexedBack(c: Code, q: Option<Table>, pre: seq<Byte>, post: seq<Byte>, kind: RefKind, v: nat,
                    base: nat, ric: nat)
    requires q.Some? ==> q.value.WellFormed()
    ensures PrefixFree(0xc0, 6) && PrefixFree(0x80, 6) && PrefixFree(0x10, 4)
    ensures var bs := match kind
              case StaticRef => IntBytes(0xc0, 6, v)
              case RelativeRef => IntBytes(0x80, 6, v)
              case PostBaseRef => IntBytes(0x10, 4, v);
            Line(c, q, pre + bs + post, |pre|, base, ric)
            == Until(if v <= UINT32_MAX then Referred(q, v, kind, base, ric) else None, |pre| + |bs|)
  {
    hide IntBytes, Reference, WithValue, GetString, Referred, PrefixFree, Pow2, Until, StringPrefix;
    LineFlags(false);
    Pow2Values();
    match kind
    case StaticRef => ReferenceAt(q, pre, post, 0xc0, 6, v, kind, base, ric);
    case RelativeRef => ReferenceAt(q, pre, post, 0x80, 6, v, kind, base, ric);
    case PostBaseRef => ReferenceAt(q, pre, post, 0x10, 4, v, kind, base, ric);
  }

  /** A name by reference and a value. */
  ghost function NamedBytes(c: Code, never: bool, kind: RefKind, v: nat, value: seq<Byte>): seq<Byte>
    requires ValidCode(c)
  {
    LineFlags(never);
    (match kind
     case StaticRef => IntBytes(if never then 0x70 else 0x50, 4, v)
     case RelativeRef => IntBytes(if never then 0x60 else 0x40, 4, v)
     case PostBaseRef => IntBytes(if never then 8 else 0, 3, v))
    + StringBytes(c, 0, 7, value)
  }

  /** The reference that such a line begins with. */
  lemma NameAt(c: Code, q: Option<Table>, pre: seq<Byte>, post: seq<Byte>, kind: RefKind, v: nat, base: nat,
               ric: nat, flags: Byte, bits: nat)
    requires (q.Some? ==> q.value.WellFormed()) && PrefixFree(flags, bits)
    requires match kind
      case StaticRef => flags in {0x70, 0x50} && bits == 4
      case RelativeRef => flags in {0x60, 0x40} && bits == 4
      case PostBaseRef => flags in {8, 0} && bits == 3
    ensures var bs := IntBytes(flags, bits, v);
            Line(c, q, pre + bs + post, |pre|, base, ric)
            == WithValue(c, pre + bs + post,
                 Until(if v <= UINT32_MAX then Referred(q, v, kind, base, ric) else None, |pre| + |bs|))
  {
    hide IntBytes, Reference, WithValue, GetString, Referred, PrefixFree, Pow2, Until;
    Pow2Values();
    ReferenceAt(q, pre, post, flags, bits, v, kind, base, ric);
  }

  lemma NamedBack(c: Code, q: Option<Table>, pre: seq<Byte>, post: seq<Byte>, never: bool, kind: RefKind, v: nat,
                  value: seq<Byte>, base: nat, ric: nat)
    requires ValidCode(c) && (q.Some? ==> q.value.WellFormed())
    ensures var bs := NamedBytes(c, never, kind, v, value);
            var e := Referred(q, v, kind, base, ric);
            Line(c, q, pre + bs + post, |pre|, base, ric)
            == Until(if v <= UINT32_MAX && e.Some? && Keepable(value) then Some(Entry(e.value.name, value)) else None,
                 |pre| + |bs|)
  {
    hide ValidCode, IntBytes, StringBytes, Line, Referred, PrefixFree, StringPrefix, Keepable, GetString;
    LineFlags(never);
    var flags: Byte := match kind
      case StaticRef => if never then 0x70 else 0x50
      case RelativeRef => if never then 0x60 else 0x40
      case PostBaseRef => if never then 8 else 0;
    var bits := if kind.PostBaseRef? then 3 else 4;
    var a, b := IntBytes(flags, bits, v), StringBytes(c, 0, 7, value);
    assert pre + (a + b) + post == pre + a + (b + post) == (pre + a) + b + post;
    NameAt(c, q, pre, b + post, kind, v, base, ric, flags, bits);
    var e := Referred(q, v, kind, base, ric);
    if v <= UINT32_MAX && e.Some? {
      ValueAt(c, pre + a, post, e.value, value);
    }
  }

  lemma SpelledFirst(c: Code, flags: Byte, name: seq<Byte>)
    requires ValidCode(c) && flags in {0x30, 0x20}
    ensures StringPrefix(flags, 3) && StringBytes(c, flags, 3, name) != []
    ensures flags <= StringBytes(c, flags, 3, name)[0] < flags + 0x10
  {
    hide ValidCode, IntBytes, PrefixFree, HuffBytes, Pow2, BitCount, Encodes;
    Pow2Values();
    StringPrefixFits(flags, 3);
    CodeSize(c);
    FirstByteOf(flags, 3, |name|);
    FirstByteOf(flags + 8, 3, |HuffBytes(c, name)|);
  }

  lemma SpelledBack(c: Code, q: Option<Table>, pre: seq<Byte>, post: seq<Byte>, flags: Byte, name: seq<Byte>,
                    value: seq<Byte>, base: nat, ric: nat)
    requires ValidCode(c) && (q.Some? ==> q.value.WellFormed()) && flags in {0x30, 0x20}
    ensures StringPrefix(flags, 3) && StringPrefix(0, 7)
    ensures var bs := StringBytes(c, flags, 3, name) + StringBytes(c, 0, 7, value);
            Line(c, q, pre + bs + post, |pre|, base, ric)
            == Until(if Keepable(name) && Keepable(value) then Some(Entry(name, value)) else None, |pre| + |bs|)
  {
    hide ValidCode, StringBytes, WithValue, Reference, StringPrefix, Keepable, GetString, NulFree;
    LineFlags(true);
    LineFlags(false);
    var a, b := StringBytes(c, flags, 3, name), StringBytes(c, 0, 7, value);
    SpelledFirst(c, flags, name);
    var fs := pre + (a + b) + post;
    assert fs == pre + a + (b + post) == (pre + a) + b + post;
    assert fs[|pre|] == a[0];
    StringReadBack(pre, b + post, c, flags, 3, name, STR_CAP);
    KeepableFits(name);
    ValueAt(c, pre + a, post, Entry(name, []), value);
  }

  /** In front of any other bytes, a line is read as the field it stands for, and as exactly its own bytes. */
  lemma LineReadBack(c: Code, q: Option<Table>, pre: seq<Byte>, post: seq<Byte>, line: FieldLine, base: nat, ric: nat)
    requires ValidCode(c) && (q.Some? ==> q.value.WellFormed())
    ensures var bs := LineBytes(c, base, line);
            && bs != []
            && Line(c, q, pre + bs + post, |pre|, base, ric) == Until(Meaning(q, base, ric, line), |pre| + |bs|)
  {
    hide ValidCode, IntBytes, StringBytes, Line, PrefixFree, StringPrefix, Keepable, StaticEntry, Dynamic, BelowBase;
    match line
    case IndexedStatic(idx) =>
      IndexedBack(c, q, pre, post, StaticRef, idx, base, ric);
    case IndexedDynamic(index) =>
      ReferredIs(q, index, base, ric);
      if index < base {
        IndexedBack(c, q, pre, post, RelativeRef, base - 1 - index, base, ric);
      } else {
        IndexedBack(c, q, pre, post, PostBaseRef, index - base, base, ric);
      }
    case NamedStatic(never, idx, value) =>
      NamedBack(c, q, pre, post, never, StaticRef, idx, value, base, ric);
    case NamedDynamic(never, index, value) =>
      ReferredIs(q, index, base, ric);
      if index < base {
        NamedBack(c, q, pre, post, never, RelativeRef, base - 1 - index, value, base, ric);
      } else {
        NamedBack(c, q, pre, post, never, PostBaseRef, index - base, value, base, ric);
      }
    case Spelled(never, name, value) =>
      SpelledFirst(c, if never then 0x30 else 0x20, name);
      SpelledBack(c, q, pre, post, if never then 0x30 else 0x20, name, value, base, ric);
  }

  // ---------- Whole sections ----------

  ghost function LinesBytes(c: Code, base: nat, lines: seq<FieldLine>): seq<Byte>
    requires ValidCode(c)
  {
    if lines == [] then [] else LineBytes(c, base, lines[0]) + LinesBytes(c, base, lines[1..])
  }

  /** The fields of all lines, if every one can be known. */
  function Meanings(q: Option<Table>, base: nat, ric: nat, lines: seq<FieldLine>): Option<seq<Entry>>
    requires q.Some? ==> q.value.WellFormed()
  {
    if lines == [] then Some([])
    else
      var first, rest := Meaning(q, base, ric, lines[0]), Meanings(q, base, ric, lines[1..]);
      if first.Some? && rest.Some? then Some([first.value] + rest.value) else None
  }

  lemma {:induction false} LinesReadBack(c: Code, q: Option<Table>, pre: seq<Byte>, lines: seq<FieldLine>,
                                         base: nat, ric: nat, before: seq<Entry>)
    requires ValidCode(c) && (q.Some? ==> q.value.WellFormed()) && AllProper(before)
    ensures var all := Meanings(q, base, ric, lines);
            Lines(c, q, pre + LinesBytes(c, base, lines), |pre|, base, ric, Summary(before))
            == if all.Some? && AllProper(before + all.value) then Some(Summary(before + all.value)) else None
    decreases |lines|
  {
    hide ValidCode, Line, Keep, LineBytes, Meaning, Summary, AllProper;
    if lines == [] {
      assert pre + [] == pre && before + [] == before;
    } else {
      var head, rest := LineBytes(c, base, lines[0]), LinesBytes(c, base, lines[1..]);
      var fs := pre + LinesBytes(c, base, lines);
      assert fs == pre + head + rest && fs == (pre + head) + rest;
      LineReadBack(c, q, pre, rest, lines[0], base, ric);
      if Meaning(q, base, ric, lines[0]).Some? {
        var e := Meaning(q, base, ric, lines[0]).value;
        KeepOneMore(before, e);
        var es := Meanings(q, base, ric, lines[1..]);
        if AllProper(before + [e]) {
          LinesReadBack(c, q, pre + head, lines[1..], base, ric, before + [e]);
          if es.Some? {
            assert before + [e] + es.value == before + ([e] + es.value);
          }
        } else if es.Some? && AllProper(before + ([e] + es.value)) {
          ProperPrefix(before, e, es.value);
        }
      }
    }
  }

  /** The field section with these lines. */
  ghost function SectionBytes(c: Code, maxEntries: nat, ric: nat, base: nat, lines: seq<FieldLine>): seq<Byte>
    requires ValidCode(c) && (ric > 0 ==> maxEntries > 0)
  {
    PrefixBytes(maxEntries, ric, base) + LinesBytes(c, base, lines)
  }

  /**
    A section whose prefix is readable waits for the insertions it requires, and is then understood as
    the fields it was written for, or refused if one of them cannot be known or is not proper.
    */
  lemma SectionReadBack(c: Code, q: Option<Table>, ric: nat, base: nat, lines: seq<FieldLine>)
    requires ValidCode(c) && (q.Some? ==> q.value.WellFormed()) && (ric > 0 ==> MaxEntries(q) > 0)
    requires PrefixReadable(q, ric, base)
    ensures var all := Meanings(q, base, ric, lines);
            DecodeRequest(c, q, SectionBytes(c, MaxEntries(q), ric, base, lines))
            == if ric > Inserts(q) then Blocked(ric)
               else if all.Some? && AllProper(all.value) then Understood(ric, Summary(all.value))
               else Malformed
  {
    hide ValidCode, Lines, Prefix, PrefixBytes, PrefixReadable, LinesBytes, Meanings, Summary, AllProper;
    var pre := PrefixBytes(MaxEntries(q), ric, base);
    PrefixReadBack(q, ric, base, LinesBytes(c, base, lines));
    NothingYet();
    LinesReadBack(c, q, pre, lines, base, ric, []);
    var all := Meanings(q, base, ric, lines);
    if all.Some? {
      assert [] + all.value == all.value;
    }
  }

  /**
    From an encoder to the decoder: its instructions, however they are cut into calls, leave the decoder
    with its table, and a section written for that table is understood as the fields it stands for.
    */
  lemma EncoderToDecoder(c: Code, t: Table, insns: seq<QpackInsn.Insn>, chunks: seq<seq<Byte>>, ric: nat, base: nat,
                         lines: seq<FieldLine>)
    requires ValidCode(c) && t.WellFormed() && QpackInsn.Accepted(t, insns)
    requires Joined(chunks) == QpackInsn.EncoderBytes(c, t, insns)
    requires var q := Some(QpackInsn.After(t, insns));
             (ric > 0 ==> q.value.maxCapacity >= 32) && ric <= Inserts(q) && PrefixReadable(q, ric, base)
    ensures var u := QpackInsn.After(t, insns);
            var all := Meanings(Some(u), base, ric, lines);
            && Fed(c, t, [], chunks) == Going(u, [])
            && DecodeRequest(c, Some(u), SectionBytes(c, u.maxCapacity / 32, ric, base, lines))
               == (if all.Some? && AllProper(all.value) then Understood(ric, Summary(all.value)) else Malformed)
  {
    hide ValidCode, Processed, Fed, DecodeRequest, SectionBytes, Meanings, PrefixReadable, Summary, AllProper;
    SegmentationDoesNotMatter(c, t, [], chunks);
    assert [] + Joined(chunks) == Joined(chunks);
    QpackInsn.EncoderReadBack(c, t, insns);
    SectionReadBack(c, Some(QpackInsn.After(t, insns)), ric, base, lines);
  }
}
