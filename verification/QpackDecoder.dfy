/** The decoder object h3_qpack_t of core/tincd/src/h3.c, its array and its input buffer. */
module QpackDecoder {
  import opened Wrappers
  import opened Bits
  import opened PrefixInt
  import opened Huffman
  import opened StringLiteral
  import opened StaticTable
  import opened QpackTable
  import opened QpackStream

  class Decoder {
    const maxCapacity: nat
    var capacity: nat
    var size: nat
    var inserts: nat
    const e: array<Entry>
    var n: nat
    const input: array<Byte>
    var inlen: nat
    /** Everything ever inserted. */
    ghost var history: seq<Entry>

    /** e[0..n) are the last n entries ever inserted, and `size` is what they take up. */
    ghost predicate Shape()
      reads this, e
    {
      && e.Length == maxCapacity / 32 + 1 && n < e.Length
      && inserts == |history| && n <= inserts
      && e[..n] == history[|history| - n..]
      && size == TotalSize(e[..n])
    }

    ghost function Model(): Table
      reads this
    {
      Table(maxCapacity, capacity, history, n)
    }

    ghost function Pending(): seq<Byte>
      requires inlen <= input.Length
      reads this, input
    {
      input[..inlen]
    }

    /** Between calls the input buffer never holds a whole instruction. */
    ghost predicate Valid()
      reads this, e, input
    {
      && Shape() && Model().Invariant()
      && (e as object) != input && input.Length == INPUT_CAP && inlen <= INPUT_CAP && ScanInsn(Pending()).NeedMore?
    }

    lemma Known()
      requires Valid()
      ensures Model().WellFormed()
    {
    }

    /** h3_qpack_new */
    constructor (max: nat)
      ensures Valid() && Model() == Table(max, 0, [], 0) && Pending() == []
      ensures fresh(e) && fresh(input)
    {
      maxCapacity, capacity, size, inserts, n, inlen := max, 0, 0, 0, 0, 0;
      e := new Entry[max / 32 + 1];
      input := new Byte[INPUT_CAP];
      history := [];
      new;
      hide ScanInsn, Table.Invariant, TotalSize;
      FreshTable(max);
      assert e[..n] == [] && input[..inlen] == [];
    }

    /** qpack_drop_oldest */
    method DropOldest()
      requires Shape() && n > 0
      modifies this`n, this`size, e
      ensures Shape() && n == old(n) - 1
    {
      assert e[..n][1..] == e[1..n];
      size := size - Size(e[0]);
      forall k | 0 <= k < n - 1 {
        e[k] := e[k + 1];
      }
      n := n - 1;
      assert e[..n] == old(e[1..n]);
    }

    /** The two eviction loops.  The table is never empty when one of them drops an entry. */
    method EvictTo(limit: nat)
      requires Shape()
      modifies this`n, this`size, e
      ensures Shape() && Model() == Evicted(old(Model()), limit)
    {
      hide TotalSize, Evicted;
      while size > limit
        invariant Shape()
        invariant Model() == old(Model()).(live := n)
        invariant Evicted(Model(), limit) == Evicted(old(Model()), limit)
        decreases n
      {
        assert e[..n] == Model().Live();
        EvictOne(Model(), limit);
        DropOldest();
      }
      assert e[..n] == Model().Live();
      EvictNone(Model(), limit);
    }

    /** qpack_get */
    method Get(index: nat) returns (r: Option<Entry>)
      requires Shape()
      ensures r == Model().Get(index)
    {
      if index >= inserts || index < inserts - n {
        return None;
      }
      assert e[..n][index - (inserts - n)] == e[index - (inserts - n)];
      return Some(e[index - (inserts - n)]);
    }

    /** The end of qpack_insert: a new entry in the first free slot. */
    method Append(x: Entry)
      requires Shape() && n + 1 < e.Length
      modifies this`n, this`size, this`inserts, this`history, e
      ensures Shape() && n == old(n) + 1 && history == old(history) + [x]
    {
      hide TotalSize;
      SizeAfter(e[..n], x);
      ghost var kept := e[..n];
      e[n] := x;
      n := n + 1;
      size := size + Size(x);
      inserts := inserts + 1;
      history := history + [x];
      assert e[..n] == kept + [x];
    }

    /** qpack_insert */
    method Insert(x: Entry) returns (ok: bool)
      requires Shape() && Model().Invariant()
      modifies this`n, this`size, this`inserts, this`history, e
      ensures Shape()
      ensures ok <==> Inserted(old(Model()), x).Some?
      ensures ok ==> Inserted(old(Model()), x) == Some(Model())
    {
      hide Evicted, TotalSize, Table.Invariant, Table.Live, Inserted;
      CapacityBound(Model());
      if Size(x) > capacity {
        return false;
      }
      EvictTo(capacity - Size(x));
      RoomForOne(Model(), Size(x));
      Append(x);
      InsertedIs(old(Model()), x, Model());
      return true;
    }

    /** Insert With Name Reference. */
    method ExecuteNameRef(tabs: Tables, ghost c: Code, buf: seq<Byte>) returns (ok: bool)
      requires ValidCode(c) && TablesOf(c, tabs) && buf != [] && Shape() && Model().Invariant()
      modifies this`n, this`size, this`inserts, this`history, e
      ensures Shape()
      ensures ok <==> InsertNameRef(c, old(Model()), buf).Some?
      ensures ok ==> InsertNameRef(c, old(Model()), buf) == Some(Model())
    {
      hide ValidCode, TablesOf, Table.Invariant, Inserted, GetInt, GetString, StaticName, StaticValue, TotalSize;
      var i, v, value;
      ok, i, v := ReadInt(buf, 0, 6);
      if !ok {
        return false;
      }
      ok, i, value := ReadString(tabs, c, buf, i, 7, STR_CAP);
      if !ok {
        return false;
      }
      if buf[0] >= 0xc0 {
        if v >= STATIC_N {
          return false;
        }
        ok := Insert(Entry(Text(StaticName(v)), value));
        return;
      }
      if v >= inserts {
        return false;
      }
      var found := Get(inserts - 1 - v);
      if found == None {
        return false;
      }
      ok := Insert(Entry(found.value.name, value));
    }

    /** Insert With Literal Name. */
    method ExecuteLiteral(tabs: Tables, ghost c: Code, buf: seq<Byte>) returns (ok: bool)
      requires ValidCode(c) && TablesOf(c, tabs) && buf != [] && Shape() && Model().Invariant()
      modifies this`n, this`size, this`inserts, this`history, e
      ensures Shape()
      ensures ok <==> InsertLiteral(c, old(Model()), buf).Some?
      ensures ok ==> InsertLiteral(c, old(Model()), buf) == Some(Model())
    {
      hide ValidCode, TablesOf, Table.Invariant, Inserted, GetString, TotalSize;
      var i, name, value;
      ok, i, name := ReadString(tabs, c, buf, 0, 5, STR_CAP);
      if !ok {
        return false;
      }
      ok, i, value := ReadString(tabs, c, buf, i, 7, STR_CAP);
      if !ok {
        return false;
      }
      ok := Insert(Entry(name, value));
    }

    /** qpack_insn */
    method Execute(tabs: Tables, ghost c: Code, buf: seq<Byte>) returns (ok: bool)
      requires ValidCode(c) && TablesOf(c, tabs) && buf != [] && Shape() && Model().Invariant()
      modifies this`capacity, this`n, this`size, this`inserts, this`history, e
      ensures Shape()
      ensures ok <==> Executed(c, old(Model()), buf).Some?
      ensures ok ==> Executed(c, old(Model()), buf) == Some(Model()) && Model().Invariant()
    {
      ghost var before := Model();
      hide ValidCode, TablesOf, Table.Invariant, Inserted, GetInt, GetString, InsertNameRef, InsertLiteral,
          TotalSize, Evicted;
      if buf[0] >= 0x80 {
        ok := ExecuteNameRef(tabs, c, buf);
      } else if buf[0] >= 0x40 {
        ok := ExecuteLiteral(tabs, c, buf);
      } else {
        var i, v;
        ok, i, v := ReadInt(buf, 0, 5);
        if !ok {
          return false;
        }
        if buf[0] >= 0x20 {
          if v > maxCapacity {
            return false;
          }
          capacity := v;
          EvictTo(capacity);
        } else {
          if v >= inserts {
            return false;
          }
          var found := Get(inserts - 1 - v);
          if found == None {
            return false;
          }
          // the entry is copied out before the insertion may evict it
          ok := Insert(found.value);
        }
      }
      if ok {
        ExecuteKeeps(c, before, buf);
      }
    }

    /** The inner loop of h3_qpack_encoder_data: every whole instruction in the buffer. */
    method Drain(tabs: Tables, ghost c: Code) returns (ok: bool, off: nat)
      requires ValidCode(c) && TablesOf(c, tabs) && Shape() && Model().Invariant()
      requires input.Length == INPUT_CAP && inlen <= INPUT_CAP
      modifies this`capacity, this`n, this`size, this`inserts, this`history, e
      ensures Shape() && off <= inlen
      ensures ok <==> Processed(c, old(Model()), input[..inlen]).Going?
      ensures ok ==>
                Processed(c, old(Model()), input[..inlen]) == Going(Model(), input[off..inlen]) && Model().Invariant()
    {
      hide ValidCode, TablesOf, Table.Invariant, ScanInsn, Executed, TotalSize;
      off := 0;
      assert input[..inlen] == input[0..inlen];
      while true
        invariant off <= inlen && Shape() && Model().Invariant()
        invariant Processed(c, Model(), input[off..inlen]) == Processed(c, old(Model()), input[..inlen])
        decreases inlen - off
      {
        ghost var bytes := input[off..inlen];
        var scan := InsnLen(input[off..inlen]);
        if scan.Bad? {
          return false, off;
        }
        if scan.NeedMore? {
          return true, off;
        }
        assert bytes[..scan.len] == input[off..off + scan.len];
        assert bytes[scan.len..] == input[off + scan.len..inlen];
        ok := Execute(tabs, c, input[off..off + scan.len]);
        if !ok {
          return false, off;
        }
        off := off + scan.len;
      }
    }

    /** The memcpy into the buffer. */
    method Fill(bytes: seq<Byte>)
      requires inlen + |bytes| <= input.Length
      modifies this`inlen, input
      ensures inlen <= input.Length && Pending() == old(Pending()) + bytes
    {
      ghost var had := Pending();
      forall k | 0 <= k < |bytes| {
        input[inlen + k] := bytes[k];
      }
      inlen := inlen + |bytes|;
      assert input[..inlen] == had + bytes;
    }

    /** The memmove that closes the gap. */
    method Shift(off: nat)
      requires off <= inlen <= input.Length
      modifies this`inlen, input
      ensures inlen <= input.Length && Pending() == old(input[off..inlen])
    {
      forall k | 0 <= k < inlen - off {
        input[k] := input[off + k];
      }
      inlen := inlen - off;
      assert input[..inlen] == old(input[off..inlen]);
    }

    /** h3_qpack_encoder_data: its "buffer full" refusal is never reached. */
    method EncoderData(tabs: Tables, ghost c: Code, data: seq<Byte>) returns (ok: bool)
      requires ValidCode(c) && TablesOf(c, tabs) && Valid()
      modifies this`capacity, this`n, this`size, this`inserts, this`history, this`inlen, e, input
      ensures ok <==> Processed(c, old(Model()), old(Pending()) + data).Going?
      ensures ok ==> Valid() && Processed(c, old(Model()), old(Pending()) + data) == Going(Model(), Pending())
    {
      hide ValidCode, TablesOf, Table.Invariant, ScanInsn, Executed, TotalSize, Processed;
      var rest := data;
      while |rest| > 0
        invariant Valid()
        invariant Processed(c, Model(), Pending() + rest) == Processed(c, old(Model()), old(Pending()) + data)
        decreases |rest|
      {
        var take := if INPUT_CAP - inlen < |rest| then INPUT_CAP - inlen else |rest|;
        ghost var had := Pending();
        Fill(rest[..take]);
        assert had + rest == input[..inlen] + rest[take..];
        ProcessedSplit(c, Model(), input[..inlen], rest[take..]);
        rest := rest[take..];
        var drained, off := Drain(tabs, c);
        if !drained {
          return false;
        }
        Shift(off);
        if inlen == INPUT_CAP {
          assert false;
          return false;
        }
      }
      assert Pending() + [] == Pending();
      NothingNew(c, Model(), Pending());
      return true;
    }
  }

  /** A new decoder, fed chunk by chunk until a call fails: the outcome is that of the whole stream. */
  method DecodeChunks(tabs: Tables, ghost c: Code, max: nat, chunks: seq<seq<Byte>>) returns (ok: bool, d: Decoder)
    requires ValidCode(c) && TablesOf(c, tabs)
    ensures Processed(c, Table(max, 0, [], 0), Joined(chunks)).Going? <==> ok
    ensures ok ==> d.Valid() && Processed(c, Table(max, 0, [], 0), Joined(chunks)) == Going(d.Model(), d.Pending())
  {
    hide ValidCode, TablesOf, Processed, Decoder.Shape, Table.Invariant, ScanInsn;
    d := new Decoder(max);
    d.Known();
    ghost var whole := Processed(c, Table(max, 0, [], 0), Joined(chunks));
    NothingNew(c, d.Model(), []);
    assert chunks[0..] == chunks && [] + Joined(chunks) == Joined(chunks);
    for i := 0 to |chunks|
      invariant fresh(d) && fresh(d.e) && fresh(d.input) && d.Valid() && d.Model().WellFormed()
      invariant Processed(c, d.Model(), d.Pending() + Joined(chunks[i..])) == whole
    {
      ghost var table, had, rest := d.Model(), d.Pending(), Joined(chunks[i + 1..]);
      assert chunks[i..][1..] == chunks[i + 1..];
      assert had + Joined(chunks[i..]) == had + chunks[i] + rest;
      ProcessedSplit(c, table, had + chunks[i], rest);
      ok := d.EncoderData(tabs, c, chunks[i]);
      if !ok {
        return;
      }
      d.Known();
    }
    assert d.Pending() + Joined(chunks[|chunks|..]) == d.Pending();
    NothingNew(c, d.Model(), d.Pending());
    ok := true;
  }

  lemma NothingNew(c: Code, t: Table, pending: seq<Byte>)
    requires t.WellFormed() && ScanInsn(pending).NeedMore?
    ensures Processed(c, t, pending) == Going(t, pending)
  {
  }

  /** After eviction a slot is free, because every entry takes at least 32. */
  lemma CapacityBound(t: Table)
    requires t.Invariant()
    ensures t.capacity <= t.maxCapacity
  {
  }

  lemma RoomForOne(t: Table, size: nat)
    requires t.WellFormed() && size >= 32 && TotalSize(t.Live()) + size <= t.capacity <= t.maxCapacity
    ensures t.live + 1 < t.maxCapacity / 32 + 1
  {
    TotalSizeCounts(t.Live());
  }

  lemma FreshTable(max: nat)
    ensures Table(max, 0, [], 0).Invariant() && TotalSize([]) == 0 && ScanInsn([]).NeedMore?
  {
  }

  lemma EvictOne(t: Table, limit: nat)
    requires t.WellFormed() && TotalSize(t.Live()) > limit
    ensures t.live > 0 && Evicted(t, limit) == Evicted(t.(live := t.live - 1), limit)
  {
  }

  lemma EvictNone(t: Table, limit: nat)
    requires t.WellFormed() && TotalSize(t.Live()) <= limit
    ensures Evicted(t, limit) == t
  {
  }

  lemma SizeAfter(es: seq<Entry>, x: Entry)
    ensures TotalSize(es + [x]) == TotalSize(es) + Size(x)
  {
    TotalSizeAppend(es, [x]);
    assert TotalSize([x]) == Size(x) + TotalSize([]);
  }
}
