/**
  h3_request and h3_decode_request of core/tincd/src/h3.c: the dialler's request as a HEADERS frame,
  and what the listener makes of it.
  */
module Request {
  import opened Wrappers
  import opened Bits
  import opened PrefixInt
  import opened Huffman
  import opened StringLiteral
  import opened StaticTable
  import opened QpackTable
  import opened QpackStream
  import opened QpackDecoder
  import opened FieldSection
  import FieldLines
  import FrameParser

  // ---------- Decoding ----------

  ghost function ModelOf(q: Decoder?): Option<Table>
    reads if q == null then {} else {q}
  {
    if q == null then None else Some(q.Model())
  }

  /** qd_ref for a dynamic index. */
  method ReadDynamic(q: Decoder?, index: int, ric: nat) returns (r: Option<Entry>)
    requires q != null ==> q.Shape()
    ensures r == if index < 0 then None else Dynamic(ModelOf(q), index, ric)
  {
    if q == null || index < 0 || index >= ric {
      return None;
    }
    r := q.Get(index);
  }

  /** A field name or a whole field by reference. */
  method ReadReference(q: Decoder?, fs: seq<Byte>, start: nat, bits: nat, kind: RefKind, base: nat, ric: nat)
    returns (r: Option<(Entry, nat)>)
    requires (q != null ==> q.Shape()) && 1 <= bits <= 8
    ensures r == Reference(ModelOf(q), fs, start, bits, kind, base, ric)
  {
    hide GetInt, StaticEntry;
    var ok, i, v := ReadInt(fs, start, bits);
    if !ok {
      return None;
    }
    var e;
    match kind {
      case StaticRef => e := Static(v);
      case RelativeRef => e := ReadDynamic(q, base - 1 - v, ric);
      case PostBaseRef => e := ReadDynamic(q, base + v, ric);
    }
    r := if e.Some? then Some((e.value, i)) else None;
  }

  method ReadValue(tabs: Tables, ghost c: Code, fs: seq<Byte>, named: Option<(Entry, nat)>)
    returns (r: Option<(Entry, nat)>)
    requires ValidCode(c) && TablesOf(c, tabs)
    ensures r == WithValue(c, fs, named)
  {
    hide ValidCode, TablesOf, GetString;
    if named == None {
      return None;
    }
    var ok, k, value := ReadString(tabs, c, fs, named.value.1, 7, STR_CAP);
    r := if ok then Some((Entry(named.value.0.name, value), k)) else None;
  }

  /** One turn of the loop of h3_decode_request, up to qd_keep. */
  method ReadLine(tabs: Tables, ghost c: Code, q: Decoder?, fs: seq<Byte>, i: nat, base: nat, ric: nat)
    returns (r: Option<(Entry, nat)>)
    requires ValidCode(c) && TablesOf(c, tabs) && (q != null ==> q.Shape()) && i < |fs|
    ensures r == Line(c, ModelOf(q), fs, i, base, ric)
  {
    hide ValidCode, TablesOf, GetString, WithValue, Reference;
    var b := fs[i];
    if b >= 0x80 {
      r := ReadReference(q, fs, i, 6, if b >= 0xc0 then StaticRef else RelativeRef, base, ric);
    } else if b >= 0x40 {
      r := ReadReference(q, fs, i, 4, if b % 0x20 >= 0x10 then StaticRef else RelativeRef, base, ric);
      r := ReadValue(tabs, c, fs, r);
    } else if b >= 0x20 {
      var ok, j, name := ReadString(tabs, c, fs, i, 3, STR_CAP);
      if !ok {
        return None;
      }
      r := ReadValue(tabs, c, fs, Some((Entry(name, []), j)));
    } else if b >= 0x10 {
      r := ReadReference(q, fs, i, 4, PostBaseRef, base, ric);
    } else {
      r := ReadReference(q, fs, i, 3, PostBaseRef, base, ric);
      r := ReadValue(tabs, c, fs, r);
    }
  }

  /** h3_decode_request */
  method ReadRequest(tabs: Tables, ghost c: Code, q: Decoder?, fs: seq<Byte>) returns (r: Decoded)
    requires ValidCode(c) && TablesOf(c, tabs) && (q != null ==> q.Shape())
    ensures r == DecodeRequest(c, ModelOf(q), fs)
  {
    hide ValidCode, TablesOf, GetInt, DecodeRic, Line, Keep;
    var ok, i, enc := ReadInt(fs, 0, 8);
    if !ok {
      return Malformed;
    }
    var count := DecodeRic(if q == null then 0 else q.maxCapacity / 32, if q == null then 0 else q.inserts, enc);
    if count == None || i >= |fs| {
      return Malformed;
    }
    var ric := count.value;
    var minus := fs[i] >= 0x80;
    var v;
    ok, i, v := ReadInt(fs, i, 7);
    if !ok || (minus && v + 1 > ric) {
      return Malformed;
    }
    var base := if minus then ric - v - 1 else ric + v;
    if ric > (if q == null then 0 else q.inserts) {
      return Blocked(ric);
    }
    var f := NO_FIELDS;
    ghost var start := i;
    while i < |fs|
      invariant i <= |fs|
      invariant Lines(c, ModelOf(q), fs, i, base, ric, f) == Lines(c, ModelOf(q), fs, start, base, ric, NO_FIELDS)
      decreases |fs| - i
    {
      var line := ReadLine(tabs, c, q, fs, i, base, ric);
      if line == None {
        return Malformed;
      }
      var kept := Keep(f, line.value.0.name, line.value.0.value);
      if kept == None {
        return Malformed;
      }
      f, i := kept.value, line.value.1;
    }
    return Understood(ric, f);
  }

  // ---------- Encoding ----------

  const UA_PRODUCT := "Mozilla/5.0 "
  const UA_SYSTEM := "(Windows NT 10.0;"
  const UA_BITS := " Win64; x64) "
  const UA_ENGINE := "AppleWebKit/537.36 "
  const UA_LIKE := "(KHTML, like Gecko) "
  const UA_CHROME := "Chrome/131.0.0.0 "
  const UA_SAFARI := "Safari/537.36"
  const USER_AGENT := UA_PRODUCT + UA_SYSTEM + UA_BITS + UA_ENGINE + UA_LIKE + UA_CHROME + UA_SAFARI
  const CT_APPLICATION := "application/"
  const CT_OCTETS := "octet-stream"
  const CONTENT_TYPE := CT_APPLICATION + CT_OCTETS

  /** qp_indexed: a static field line. */
  ghost function Indexed(idx: nat): seq<Byte> {
    IndexedFlags();
    IntBytes(0xc0, 6, idx)
  }

  lemma IndexedFlags()
    ensures PrefixFree(0xc0, 6) && PrefixFree(0x50, 4) && StringPrefix(0, 7)
  {
    Pow2Values();
  }

  /** qp_literal_ref: a static name with a literal value. */
  ghost function LiteralRef(c: Code, idx: nat, value: seq<Byte>): seq<Byte>
    requires ValidCode(c)
  {
    IndexedFlags();
    IntBytes(0x50, 4, idx) + StringBytes(c, 0, 7, value)
  }

  /** One field line of the request: a static field, or a static name with its own value. */
  datatype Part = ByIndex(idx: nat) | ByName(idx: nat, value: seq<Byte>)

  ghost function PartBytes(c: Code, p: Part): seq<Byte>
    requires ValidCode(c)
  {
    match p
    case ByIndex(idx) => Indexed(idx)
    case ByName(idx, value) => LiteralRef(c, idx, value)
  }

  ghost function PartsBytes(c: Code, ps: seq<Part>): seq<Byte>
    requires ValidCode(c)
  {
    if ps == [] then [] else PartBytes(c, ps[0]) + PartsBytes(c, ps[1..])
  }

  /** The lines of the dialler's request, in order. */
  function RequestParts(authority: seq<Byte>, path: Option<seq<Byte>>, cookie: Option<seq<Byte>>): seq<Part> {
    [ByIndex(20), ByIndex(23), ByName(0, authority), PathPart(path),
     ByName(44, Text(CONTENT_TYPE)), ByIndex(29), ByName(95, Text(USER_AGENT))]
    + CookiePart(cookie)
  }

  function PathPart(path: Option<seq<Byte>>): Part {
    if path == None || path == Some(Text("/")) then ByIndex(1) else ByName(1, path.value)
  }

  ghost function RequestSection(c: Code, authority: seq<Byte>, path: Option<seq<Byte>>,
                                cookie: Option<seq<Byte>>): seq<Byte>
    requires ValidCode(c)
  {
    [0, 0] + PartsBytes(c, RequestParts(authority, path, cookie))
  }

  method PutIndexed(b: FieldBuffer, idx: nat)
    requires b.Valid()
    modifies b, b.data
    ensures b.Valid() && (b.data == old(b.data) || fresh(b.data))
    ensures b.Contents() == old(b.Contents()) + Indexed(idx)
  {
    IndexedFlags();
    hide IntBytes;
    b.PutInt(0xc0, 6, idx);
  }

  method PutLiteralRef(b: FieldBuffer, c: Code, idx: nat, value: seq<Byte>)
    requires ValidCode(c) && b.Valid()
    modifies b, b.data
    ensures b.Valid() && (b.data == old(b.data) || fresh(b.data))
    ensures b.Contents() == old(b.Contents()) + LiteralRef(c, idx, value)
  {
    IndexedFlags();
    hide ValidCode, IntBytes, StringBytes;
    b.PutInt(0x50, 4, idx);
    PutString(b, c, 0, 7, value, false);
  }

  lemma {:induction false} PartsJoin(c: Code, a: seq<Part>, b: seq<Part>)
    requires ValidCode(c)
    ensures PartsBytes(c, a + b) == PartsBytes(c, a) + PartsBytes(c, b)
  {
    hide ValidCode, PartBytes;
    if a == [] {
      assert a + b == b;
    } else {
      PartsJoin(c, a[1..], b);
      assert (a + b)[1..] == a[1..] + b;
    }
  }

  lemma PartsOne(c: Code, a: seq<Part>, p: Part)
    requires ValidCode(c)
    ensures PartsBytes(c, a + [p]) == PartsBytes(c, a) + PartBytes(c, p)
  {
    hide ValidCode, PartBytes;
    PartsJoin(c, a, [p]);
    assert PartsBytes(c, [p]) == PartBytes(c, p) + PartsBytes(c, []);
  }

  /** One more line, as qp_indexed or qp_literal_ref writes it. */
  method PutPart(b: FieldBuffer, c: Code, p: Part, ghost start: seq<Byte>, ghost done: seq<Part>)
    requires ValidCode(c) && b.Valid() && b.Contents() == start + PartsBytes(c, done)
    modifies b, b.data
    ensures b.Valid() && (b.data == old(b.data) || fresh(b.data))
    ensures b.Contents() == start + PartsBytes(c, done + [p])
  {
    hide ValidCode, Indexed, LiteralRef, PartsBytes;
    PartsOne(c, done, p);
    match p {
      case ByIndex(idx) => PutIndexed(b, idx);
      case ByName(idx, value) => PutLiteralRef(b, c, idx, value);
    }
  }

  /** :method, :scheme, :authority and :path. */
  method PutPseudo(b: FieldBuffer, c: Code, authority: seq<Byte>, path: Option<seq<Byte>>, ghost start: seq<Byte>)
    requires ValidCode(c) && b.Valid() && b.Contents() == start
    modifies b, b.data
    ensures b.Valid() && (b.data == old(b.data) || fresh(b.data))
    ensures b.Contents() == start + PartsBytes(c, [ByIndex(20), ByIndex(23), ByName(0, authority), PathPart(path)])
  {
    NoParts(c, start);
    hide ValidCode, PartsBytes;
    PutPart(b, c, ByIndex(20), start, []);
    assert [] + [ByIndex(20)] == [ByIndex(20)];
    PutPart(b, c, ByIndex(23), start, [ByIndex(20)]);
    PutPart(b, c, ByName(0, authority), start, [ByIndex(20), ByIndex(23)]);
    assert [ByIndex(20), ByIndex(23), ByName(0, authority)] + [PathPart(path)]
        == [ByIndex(20), ByIndex(23), ByName(0, authority), PathPart(path)];
    if path == None || path.value == Text("/") {
      PutPart(b, c, ByIndex(1), start, [ByIndex(20), ByIndex(23), ByName(0, authority)]);
    } else {
      PutPart(b, c, ByName(1, path.value), start, [ByIndex(20), ByIndex(23), ByName(0, authority)]);
    }
  }

  /** content-type, accept, user-agent, and cookie if there is one. */
  method PutRegular(b: FieldBuffer, c: Code, cookie: Option<seq<Byte>>, ghost start: seq<Byte>)
    requires ValidCode(c) && b.Valid() && b.Contents() == start
    modifies b, b.data
    ensures b.Valid() && (b.data == old(b.data) || fresh(b.data))
    ensures b.Contents() == start + PartsBytes(c,
              [ByName(44, Text(CONTENT_TYPE)), ByIndex(29), ByName(95, Text(USER_AGENT))] + CookiePart(cookie))
  {
    NoParts(c, start);
    hide ValidCode, PartsBytes, Text;
    ghost var a, u := ByName(44, Text(CONTENT_TYPE)), ByName(95, Text(USER_AGENT));
    PutPart(b, c, ByName(44, Text(CONTENT_TYPE)), start, []);
    assert [] + [a] == [a];
    PutPart(b, c, ByIndex(29), start, [a]);
    PutPart(b, c, ByName(95, Text(USER_AGENT)), start, [a, ByIndex(29)]);
    assert [a, ByIndex(29)] + [u] == [a, ByIndex(29), u] + [];
    if cookie.Some? {
      PutPart(b, c, ByName(5, cookie.value), start, [a, ByIndex(29), u]);
    }
  }

  lemma NoParts(c: Code, start: seq<Byte>)
    requires ValidCode(c)
    ensures start + PartsBytes(c, []) == start
  {
  }

  /** h3_request, through headers_frame. */
  method H3Request(c: Code, authority: seq<Byte>, path: Option<seq<Byte>>, cookie: Option<seq<Byte>>)
    returns (frame: seq<Byte>)
    requires ValidCode(c)
    requires |RequestSection(c, authority, path, cookie)| < FrameParser.TWO62
    ensures frame == FrameParser.FrameBytes(RequestFrame(c, authority, path, cookie))
  {
    SectionInTwo(c, authority, path, cookie);
    hide ValidCode, PartsBytes, RequestSection, FrameParser.VarintBytes;
    var fs := new FieldBuffer();
    fs.Put([0, 0]);
    PutPseudo(fs, c, authority, path, [0, 0]);
    ghost var first := fs.Contents();
    PutRegular(fs, c, cookie, first);
    var section := fs.data[..fs.len];
    assert section == RequestSection(c, authority, path, cookie);
    frame := HeadersFrame(section);
  }

  lemma SectionInTwo(c: Code, authority: seq<Byte>, path: Option<seq<Byte>>, cookie: Option<seq<Byte>>)
    requires ValidCode(c)
    ensures RequestSection(c, authority, path, cookie)
            == [0, 0] + PartsBytes(c, [ByIndex(20), ByIndex(23), ByName(0, authority), PathPart(path)])
               + PartsBytes(c,
                   [ByName(44, Text(CONTENT_TYPE)), ByIndex(29), ByName(95, Text(USER_AGENT))] + CookiePart(cookie))
  {
    hide ValidCode, PartsBytes, Text;
    var a := [ByIndex(20), ByIndex(23), ByName(0, authority), PathPart(path)];
    var b := [ByName(44, Text(CONTENT_TYPE)), ByIndex(29), ByName(95, Text(USER_AGENT))] + CookiePart(cookie);
    assert RequestParts(authority, path, cookie) == a + b;
    PartsJoin(c, a, b);
  }

  /** headers_frame */
  method HeadersFrame(section: seq<Byte>) returns (frame: seq<Byte>)
    requires |section| < FrameParser.TWO62
    ensures frame == FrameParser.FrameBytes(FrameParser.Frame(FrameParser.FRAME_HEADERS, section))
  {
    HeadersKind();
    hide FrameParser.VarintBytes;
    var out := new FieldBuffer();
    out.Put([1]);
    out.Put(FrameParser.VarintBytes(|section|));
    out.Put(section);
    frame := out.data[..out.len];
  }

  lemma HeadersKind()
    ensures FrameParser.VarintBytes(1) == [1]
  {
  }

  ghost function RequestFrame(c: Code, authority: seq<Byte>, path: Option<seq<Byte>>,
                              cookie: Option<seq<Byte>>): FrameParser.Frame
    requires ValidCode(c)
  {
    FrameParser.Frame(FrameParser.FRAME_HEADERS, RequestSection(c, authority, path, cookie))
  }

  // ---------- Reading back ----------

  function PartEntry(p: Part): Entry
    requires p.idx < STATIC_N
  {
    match p
    case ByIndex(idx) => StaticEntry(idx)
    case ByName(idx, value) => Entry(StaticEntry(idx).name, value)
  }

  /** The decoder's string buffer holds the value. */
  predicate Readable(p: Part) {
    p.ByName? ==> NulFree(p.value) && |p.value| <= STR_MAX
  }

  function PartLine(p: Part): FieldLines.FieldLine {
    match p
    case ByIndex(idx) => FieldLines.IndexedStatic(idx)
    case ByName(idx, value) => FieldLines.NamedStatic(false, idx, value)
  }

  lemma PartReadBack(c: Code, q: Option<Table>, pre: seq<Byte>, post: seq<Byte>, p: Part, base: nat, ric: nat)
    requires ValidCode(c) && (q.Some? ==> q.value.WellFormed()) && p.idx < STATIC_N
    ensures PartBytes(c, p) != []
    ensures Line(c, q, pre + PartBytes(c, p) + post, |pre|, base, ric)
            == if Readable(p) then Some((PartEntry(p), |pre| + |PartBytes(c, p)|)) else None
  {
    hide ValidCode, Line, StaticEntry, IntBytes, StringBytes, PrefixFree, StringPrefix, NulFree;
    FieldLines.LineReadBack(c, q, pre, post, PartLine(p), base, ric);
  }

  function KeepPart(f: Fields, p: Part): Option<Fields> {
    if p.idx < STATIC_N && Readable(p) then Keep(f, PartEntry(p).name, PartEntry(p).value) else None
  }

  /** What keeping the fields of `ps` one after the other leaves. */
  function KeepAll(f: Fields, ps: seq<Part>): Option<Fields>
    decreases |ps|
  {
    if ps == [] then Some(f)
    else
      match KeepPart(f, ps[0])
      case None => None
      case Some(g) => KeepAll(g, ps[1..])
  }

  lemma {:induction false} PartsReadBack(c: Code, q: Option<Table>, pre: seq<Byte>, ps: seq<Part>, base: nat,
                                         ric: nat, f: Fields)
    requires ValidCode(c) && (q.Some? ==> q.value.WellFormed()) && forall p :: p in ps ==> p.idx < STATIC_N
    ensures Lines(c, q, pre + PartsBytes(c, ps), |pre|, base, ric, f) == KeepAll(f, ps)
    decreases |ps|
  {
    hide ValidCode, Line, Keep, PartEntry, PartBytes, Readable;
    if ps == [] {
      assert pre + [] == pre;
    } else {
      var head, rest := PartBytes(c, ps[0]), PartsBytes(c, ps[1..]);
      var fs := pre + PartsBytes(c, ps);
      assert fs == pre + head + rest && fs == (pre + head) + rest;
      PartReadBack(c, q, pre, rest, ps[0], base, ric);
      if KeepPart(f, ps[0]).Some? {
        PartsReadBack(c, q, pre + head, ps[1..], base, ric, KeepPart(f, ps[0]).value);
      }
    }
  }

  // ---------- What the listener understands ----------

  /** Exactly the requests that get through: note that the path is bounded by the string buffer, not by its own. */
  predicate Acceptable(authority: seq<Byte>, path: Option<seq<Byte>>, cookie: Option<seq<Byte>>) {
    && |authority| < AUTHORITY_CAP
    && (path.Some? ==> |path.value| <= STR_MAX)
    && (cookie.Some? ==> |cookie.value| <= STR_MAX && OneLine(cookie.value))
  }

  /** The header lines, in order. */
  function RequestHeaders(cookie: Option<seq<Byte>>): seq<Byte> {
    HeaderLine(Text("content-type"), Text(CONTENT_TYPE))
    + HeaderLine(Text("accept"), Text("*/*"))
    + HeaderLine(Text("user-agent"), Text(USER_AGENT))
    + (if cookie.Some? then HeaderLine(Text("cookie"), cookie.value) else [])
  }

  /** A cookie longer than 4093 bytes is accepted as a header line but not kept for the token. */
  function ExpectedFields(authority: seq<Byte>, path: Option<seq<Byte>>, cookie: Option<seq<Byte>>): Fields {
    Fields(
      Text("POST"),
      if path.Some? then path.value else Text("/"),
      authority,
      [],
      if cookie.Some? && |cookie.value| + 2 < COOKIE_CAP then cookie.value else [],
      RequestHeaders(cookie))
  }

  lemma KeepVerb(f: Fields)
    ensures KeepPart(f, ByIndex(20)) == Some(f.(verb := Text("POST")))
    ensures KeepPart(f, ByIndex(23)) == Some(f)
  {
    assert StaticName(20) == ":method" && StaticValue(20) == "POST" && StaticName(23) == ":scheme";
    hide StaticName, StaticValue;
    NamesDiffer();
  }

  lemma KeepAuthority(f: Fields, authority: seq<Byte>)
    requires NulFree(authority)
    ensures KeepPart(f, ByName(0, authority))
              == if |authority| < AUTHORITY_CAP then Some(f.(authority := authority)) else None
  {
    assert StaticName(0) == ":authority";
    hide StaticName, StaticValue;
    NamesDiffer();
  }

  lemma KeepPath(f: Fields, path: Option<seq<Byte>>)
    requires path.Some? ==> NulFree(path.value)
    ensures KeepPart(f, PathPart(path))
            == if path.Some? && |path.value| > STR_MAX then None
               else Some(f.(path := if path.Some? then path.value else Text("/")))
  {
    assert StaticName(1) == ":path" && StaticValue(1) == "/";
    hide StaticName, StaticValue;
    NamesDiffer();
  }

  /** The names that are treated specially are what they look like. */
  lemma NamesDiffer()
    ensures Text(":method")[0] == 58 && Text(":scheme")[0] == 58 && Text(":authority")[0] == 58
              && Text(":path")[0] == 58
    ensures Text(":method") != Text(":scheme")
    ensures |Text(":method")| == 7 && |Text(":authority")| == 10 && |Text(":path")| == 5 && |Text(":scheme")| == 7
  {
    assert Text(":method")[1] == 109 && Text(":scheme")[1] == 115;
  }

  lemma NamesOk()
    ensures NameOk(Text("content-type")) && NameOk(Text("accept")) && NameOk(Text("user-agent"))
              && NameOk(Text("cookie"))
    ensures Text("content-type")[0] != 58 && Text("accept")[0] != 58 && Text("user-agent")[0] != 58
              && Text("cookie")[0] != 58
    ensures Text("accept") != Text("cookie")
  {
    TokenText("content-type");
    TokenText("accept");
    TokenText("user-agent");
    TokenText("cookie");
    hide NameOk;
    assert Text("accept")[0] == 97 && Text("cookie")[0] == 99;
  }

  predicate TokenString(s: string) {
    s != "" && forall i :: 0 <= i < |s| ==> 'a' <= s[i] <= 'z' || s[i] == '-'
  }

  lemma TokenText(s: string)
    requires TokenString(s)
    ensures NameOk(Text(s))
  {
  }

  predicate Printable(s: string) {
    forall i :: 0 <= i < |s| ==> ' ' <= s[i] <= '~'
  }

  lemma PrintableText(s: string)
    requires Printable(s)
    ensures NulFree(Text(s)) && OneLine(Text(s))
  {
  }

  lemma SystemPrintable()
    ensures Printable(UA_PRODUCT) && Printable(UA_SYSTEM)
  {
  }

  lemma EnginePrintable()
    ensures Printable(UA_BITS) && Printable(UA_ENGINE)
  {
  }

  lemma BrowserPrintable()
    ensures Printable(UA_LIKE) && Printable(UA_CHROME) && Printable(UA_SAFARI)
  {
  }

  lemma PrintableJoin(s: string, t: string)
    requires Printable(s) && Printable(t)
    ensures Printable(s + t)
  {
  }

  lemma AgentPrintable()
    ensures Printable(USER_AGENT) && |USER_AGENT| == 111
  {
    hide Printable;
    SystemPrintable();
    EnginePrintable();
    BrowserPrintable();
    PrintableJoin(UA_PRODUCT, UA_SYSTEM);
    PrintableJoin(UA_PRODUCT + UA_SYSTEM, UA_BITS);
    PrintableJoin(UA_PRODUCT + UA_SYSTEM + UA_BITS, UA_ENGINE);
    PrintableJoin(UA_PRODUCT + UA_SYSTEM + UA_BITS + UA_ENGINE, UA_LIKE);
    PrintableJoin(UA_PRODUCT + UA_SYSTEM + UA_BITS + UA_ENGINE + UA_LIKE, UA_CHROME);
    PrintableJoin(UA_PRODUCT + UA_SYSTEM + UA_BITS + UA_ENGINE + UA_LIKE + UA_CHROME, UA_SAFARI);
  }

  lemma ValuesOk()
    ensures NulFree(Text(CONTENT_TYPE)) && OneLine(Text(CONTENT_TYPE)) && NulFree(Text(USER_AGENT))
              && OneLine(Text(USER_AGENT))
    ensures OneLine(Text("*/*")) && |CONTENT_TYPE| == 24 && |USER_AGENT| == 111
  {
    assert Printable(CT_APPLICATION) && Printable(CT_OCTETS) && Printable("*/*");
    PrintableText("*/*");
    PrintableText(CONTENT_TYPE);
    AgentPrintable();
    PrintableText(USER_AGENT);
  }

  /** A regular field, but for host and cookie, becomes a header line if there is room. */
  lemma KeepRegular(f: Fields, name: seq<Byte>, value: seq<Byte>)
    requires NameOk(name) && name[0] != 58 && name != Text("host") && OneLine(value)
    ensures Keep(f, name, value)
            == if |f.headers| + |HeaderLine(name, value)| >= HEADERS_CAP then None
               else if name == Text("cookie") then
                 Some(f.(headers := f.headers + HeaderLine(name, value), cookie := JoinCookie(f.cookie, value)))
               else Some(f.(headers := f.headers + HeaderLine(name, value)))
  {
  }

  ghost predicate AddsLine(f: Fields, p: Part, name: string, value: seq<Byte>) {
    KeepPart(f, p) == Some(f.(headers := f.headers + HeaderLine(Text(name), value)))
  }

  lemma KeepContentType(f: Fields)
    requires |f.headers| <= 1000
    ensures AddsLine(f, ByName(44, Text(CONTENT_TYPE)), "content-type", Text(CONTENT_TYPE))
  {
    assert StaticName(44) == "content-type";
    hide StaticName, StaticValue, NameOk, OneLine, NulFree, Keep;
    NamesOk();
    ValuesOk();
    KeepRegular(f, Text("content-type"), Text(CONTENT_TYPE));
  }

  lemma KeepAccept(f: Fields)
    requires |f.headers| <= 1000
    ensures AddsLine(f, ByIndex(29), "accept", Text("*/*"))
  {
    assert StaticName(29) == "accept" && StaticValue(29) == "*/*";
    hide StaticName, StaticValue, NameOk, OneLine, NulFree, Keep;
    NamesOk();
    ValuesOk();
    KeepRegular(f, Text("accept"), Text("*/*"));
  }

  lemma KeepUserAgent(f: Fields)
    requires |f.headers| <= 1000
    ensures AddsLine(f, ByName(95, Text(USER_AGENT)), "user-agent", Text(USER_AGENT))
  {
    assert StaticName(95) == "user-agent";
    hide StaticName, StaticValue, NameOk, OneLine, NulFree, Keep;
    NamesOk();
    ValuesOk();
    KeepRegular(f, Text("user-agent"), Text(USER_AGENT));
  }

  lemma KeepCookie(f: Fields, cookie: seq<Byte>)
    requires |f.headers| <= 1000 && f.cookie == [] && NulFree(cookie)
    ensures KeepPart(f, ByName(5, cookie))
            == if |cookie| <= STR_MAX && OneLine(cookie) then
                 Some(f.(headers := f.headers + HeaderLine(Text("cookie"), cookie),
                         cookie := if |cookie| + 2 < COOKIE_CAP then cookie else []))
               else None
  {
    assert StaticName(5) == "cookie";
    hide StaticName, StaticValue, NameOk, OneLine, NulFree;
    NamesOk();
    if OneLine(cookie) {
      KeepRegular(f, Text("cookie"), cookie);
    }
  }

  lemma KeepCons(f: Fields, p: Part, rest: seq<Part>)
    ensures KeepAll(f, [p] + rest) == match KeepPart(f, p) case None => None case Some(g) => KeepAll(g, rest)
  {
    hide KeepPart;
    assert ([p] + rest)[1..] == rest;
  }

  /** The content-type, accept, user-agent and cookie lines. */
  function RegularParts(cookie: Option<seq<Byte>>): seq<Part> {
    [ByName(44, Text(CONTENT_TYPE))] + ([ByIndex(29)] + ([ByName(95, Text(USER_AGENT))] + CookiePart(cookie)))
  }

  lemma HeaderLengths()
    ensures |HeaderLine(Text("content-type"), Text(CONTENT_TYPE))| < 100
    ensures |HeaderLine(Text("accept"), Text("*/*"))| < 100 && |HeaderLine(Text("user-agent"), Text(USER_AGENT))| < 200
  {
    hide OneLine, NulFree;
    ValuesOk();
  }

  lemma KeepTail(f: Fields, cookie: Option<seq<Byte>>)
    requires f.headers == [] && f.cookie == [] && (cookie.Some? ==> NulFree(cookie.value))
    ensures KeepAll(f, RegularParts(cookie))
            == if cookie.Some? && (|cookie.value| > STR_MAX || !OneLine(cookie.value)) then None
               else Some(f.(headers := RequestHeaders(cookie),
                            cookie := if cookie.Some? && |cookie.value| + 2 < COOKIE_CAP then cookie.value else []))
  {
    hide KeepPart, OneLine, NulFree, Text, KeepAll, HeaderLine;
    HeaderLengths();
    var f1 := f.(headers := HeaderLine(Text("content-type"), Text(CONTENT_TYPE)));
    var f2 := f1.(headers := f1.headers + HeaderLine(Text("accept"), Text("*/*")));
    var f3 := f2.(headers := f2.headers + HeaderLine(Text("user-agent"), Text(USER_AGENT)));
    assert f.headers + f1.headers == f1.headers;
    KeepContentType(f);
    KeepAccept(f1);
    KeepUserAgent(f2);
    var tail := CookiePart(cookie);
    KeepCons(f, ByName(44, Text(CONTENT_TYPE)), [ByIndex(29)] + ([ByName(95, Text(USER_AGENT))] + tail));
    KeepCons(f1, ByIndex(29), [ByName(95, Text(USER_AGENT))] + tail);
    KeepCons(f2, ByName(95, Text(USER_AGENT)), tail);
    KeepCookieOrNot(f3, cookie);
    assert f3.headers + [] == f3.headers;
  }

  lemma KeepCookieOrNot(f: Fields, cookie: Option<seq<Byte>>)
    requires |f.headers| <= 1000 && f.cookie == [] && (cookie.Some? ==> NulFree(cookie.value))
    ensures KeepAll(f, CookiePart(cookie))
            == if cookie.Some? && (|cookie.value| > STR_MAX || !OneLine(cookie.value)) then None
               else Some(f.(headers := f.headers
                              + (if cookie.Some? then HeaderLine(Text("cookie"), cookie.value) else []),
                            cookie := if cookie.Some? && |cookie.value| + 2 < COOKIE_CAP then cookie.value else []))
  {
    hide KeepPart, OneLine, NulFree, Text, KeepAll;
    if cookie == None {
      KeepDone(f);
      assert f.headers + [] == f.headers;
    } else {
      KeepCookie(f, cookie.value);
      assert CookiePart(cookie) == [ByName(5, cookie.value)] + [];
      KeepCons(f, ByName(5, cookie.value), []);
      if |cookie.value| <= STR_MAX && OneLine(cookie.value) {
        KeepDone(KeepPart(f, ByName(5, cookie.value)).value);
      }
    }
  }

  lemma KeepDone(f: Fields)
    ensures KeepAll(f, []) == Some(f)
  {
  }

  function CookiePart(cookie: Option<seq<Byte>>): seq<Part> {
    if cookie == None then [] else [ByName(5, cookie.value)]
  }

  lemma KeepRequest(authority: seq<Byte>, path: Option<seq<Byte>>, cookie: Option<seq<Byte>>)
    requires NulFree(authority) && (path.Some? ==> NulFree(path.value)) && (cookie.Some? ==> NulFree(cookie.value))
    ensures KeepAll(NO_FIELDS, RequestParts(authority, path, cookie))
            == if Acceptable(authority, path, cookie) then Some(ExpectedFields(authority, path, cookie)) else None
  {
    hide KeepPart, OneLine, NulFree, Text, KeepAll, RequestHeaders;
    var tail := RegularParts(cookie);
    var p3 := [PathPart(path)] + tail;
    var p2 := [ByName(0, authority)] + p3;
    var p1 := [ByIndex(23)] + p2;
    assert RequestParts(authority, path, cookie) == [ByIndex(20)] + p1;
    var f1 := NO_FIELDS.(verb := Text("POST"));
    KeepVerb(NO_FIELDS);
    KeepVerb(f1);
    KeepCons(NO_FIELDS, ByIndex(20), p1);
    KeepCons(f1, ByIndex(23), p2);
    KeepAuthority(f1, authority);
    KeepCons(f1, ByName(0, authority), p3);
    var f2 := f1.(authority := authority);
    KeepPath(f2, path);
    KeepCons(f2, PathPart(path), tail);
    KeepTail(f2.(path := if path.Some? then path.value else Text("/")), cookie);
  }

  lemma SectionPrefix(q: Option<Table>, rest: seq<Byte>)
    requires q.Some? ==> q.value.WellFormed()
    ensures Prefix(q, [0, 0] + rest) == Some((0, 0, 2))
  {
    Pow2Values();
    RicZero(MaxEntries(q), Inserts(q));
    hide DecodeRic;
  }

  /**
    The listener understands the dialler's request exactly when it is acceptable, whatever its dynamic
    table holds, and then finds in it what the dialler put there.
    */
  lemma RequestReadBack(c: Code, q: Option<Table>, authority: seq<Byte>, path: Option<seq<Byte>>,
                        cookie: Option<seq<Byte>>)
    requires ValidCode(c) && (q.Some? ==> q.value.WellFormed())
    requires NulFree(authority) && (path.Some? ==> NulFree(path.value)) && (cookie.Some? ==> NulFree(cookie.value))
    ensures DecodeRequest(c, q, RequestSection(c, authority, path, cookie))
            == if Acceptable(authority, path, cookie) then Understood(0, ExpectedFields(authority, path, cookie))
               else Malformed
  {
    hide ValidCode, NulFree, KeepAll, Prefix, Lines, PartsBytes, RequestParts, ExpectedFields, Acceptable;
    var ps := RequestParts(authority, path, cookie);
    SectionPrefix(q, PartsBytes(c, ps));
    PartsKnown(authority, path, cookie);
    PartsReadBack(c, q, [0, 0], ps, 0, 0, NO_FIELDS);
    KeepRequest(authority, path, cookie);
  }

  lemma PartsKnown(authority: seq<Byte>, path: Option<seq<Byte>>, cookie: Option<seq<Byte>>)
    ensures forall p :: p in RequestParts(authority, path, cookie) ==> p.idx < STATIC_N
  {
  }

  /**
    From the dialler to the listener, through any segmentation of the stream: the section comes byte by
    byte, the end of its frame is seen at its last byte and nowhere else, and there it is decoded.
    */
  lemma RequestEndToEnd(c: Code, q: Option<Table>, authority: seq<Byte>, path: Option<seq<Byte>>,
                        cookie: Option<seq<Byte>>, chunks: seq<seq<Byte>>)
    requires ValidCode(c) && (q.Some? ==> q.value.WellFormed())
    requires NulFree(authority) && (path.Some? ==> NulFree(path.value)) && (cookie.Some? ==> NulFree(cookie.value))
    requires |RequestSection(c, authority, path, cookie)| < FrameParser.TWO62
    requires Joined(chunks) == FrameParser.FrameBytes(RequestFrame(c, authority, path, cookie))
    ensures FrameParser.Header([]) == None
    ensures var section := RequestSection(c, authority, path, cookie);
            var (end, tokens) := FrameParser.DeliveredInChunks(FrameParser.InHeader([]), chunks);
            && end == FrameParser.InHeader([])
            && tokens == FrameParser.Tagged(FrameParser.FRAME_HEADERS, section, true)
            && FrameParser.Made(FrameParser.NOTHING, tokens)
               == FrameParser.Received([FrameParser.Frame(FrameParser.FRAME_HEADERS, section)], [])
            && DecodeRequest(c, q, section)
            == if Acceptable(authority, path, cookie) then Understood(0, ExpectedFields(authority, path, cookie))
               else Malformed
  {
    hide ValidCode, NulFree, ExpectedFields, Acceptable, DecodeRequest, PartsBytes, FrameParser.Delivered,
      FrameParser.FrameBytes, FrameParser.Made;
    FrameParser.HeaderNone();
    var frame := RequestFrame(c, authority, path, cookie);
    FrameParser.ChunksDoNotMatter(FrameParser.InHeader([]), chunks);
    FrameParser.FrameReadBack(frame);
    FrameParser.FrameMade(FrameParser.NOTHING, frame);
    assert [] + [frame] == [frame];
    RequestReadBack(c, q, authority, path, cookie);
  }
}
