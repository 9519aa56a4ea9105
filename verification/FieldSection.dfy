/**
  Field sections of core/tincd/src/h3.c: the Required Insert Count (section 4.5.1.1 of RFC 9204), the
  field lines, and h3_decode_request.
  */
module FieldSection {
  import opened Wrappers
  import opened Bits
  import opened PrefixInt
  import opened Huffman
  import opened StringLiteral
  import opened StaticTable
  import opened QpackTable
  import opened QpackStream

  // ---------- Required Insert Count ----------

  /** qd_ric: `maxEntries` is 0 without a dynamic table. */
  function DecodeRic(maxEntries: nat, inserts: nat, enc: nat): (r: Option<nat>) {
    if enc == 0 then Some(0)
    else
      var full := 2 * maxEntries;
      if full == 0 || enc > full then None
      else
        var maxValue := inserts + maxEntries;
        var wrapped := maxValue / full * full;
        var v := wrapped + enc - 1;
        if v > maxValue then
          if v <= full then None else Some(v - full)
        else if v == 0 then None
        else Some(v)
  }

  /** The encoding of a Required Insert Count. */
  function EncodeRic(maxEntries: nat, ric: nat): nat
    requires ric > 0 ==> maxEntries > 0
  {
    if ric == 0 then 0 else ric % (2 * maxEntries) + 1
  }

  /** The counts a decoder with `inserts` insertions can tell apart. */
  predicate InWindow(maxEntries: nat, inserts: nat, ric: nat) {
    ric > 0 && inserts < ric + maxEntries && ric <= inserts + maxEntries
  }

  /** qd_ric returns `ric` exactly when the encoding is that of `ric`, and `ric` is 0 or within the window. */
  lemma RicExactly(maxEntries: nat, inserts: nat, enc: nat, ric: nat)
    ensures DecodeRic(maxEntries, inserts, enc) == Some(ric) <==>
              (enc == 0 && ric == 0) || (InWindow(maxEntries, inserts, ric) && enc == EncodeRic(maxEntries, ric))
  {
    hide DecodeRic, InWindow, EncodeRic;
    RicOfNothing(maxEntries, inserts, enc, ric);
    if enc > 0 && maxEntries > 0 {
      if DecodeRic(maxEntries, inserts, enc) == Some(ric) {
        RicDecoded(maxEntries, inserts, enc, ric);
      }
      if InWindow(maxEntries, inserts, ric) && enc == EncodeRic(maxEntries, ric) {
        RicEncoded(maxEntries, inserts, ric);
      }
    }
  }

  lemma RicOfNothing(maxEntries: nat, inserts: nat, enc: nat, ric: nat)
    ensures enc == 0 ==> DecodeRic(maxEntries, inserts, enc) == Some(0)
    ensures enc > 0 && maxEntries == 0 ==> DecodeRic(maxEntries, inserts, enc) == None
    ensures InWindow(maxEntries, inserts, ric) ==> maxEntries > 0 && EncodeRic(maxEntries, ric) > 0
  {
  }

  lemma RicDecoded(maxEntries: nat, inserts: nat, enc: nat, ric: nat)
    requires maxEntries > 0 && enc > 0 && DecodeRic(maxEntries, inserts, enc) == Some(ric)
    ensures InWindow(maxEntries, inserts, ric) && enc == EncodeRic(maxEntries, ric)
  {
    var full, maxValue := 2 * maxEntries, inserts + maxEntries;
    var k := maxValue / full;
    assert maxValue == k * full + maxValue % full;
    var v := k * full + (enc - 1);
    DivUnique(v, full, k, enc - 1);
    assert v - full == (k - 1) * full + (enc - 1);
    DivUnique(v - full, full, k - 1, enc - 1);
  }

  lemma RicEncoded(maxEntries: nat, inserts: nat, ric: nat)
    requires InWindow(maxEntries, inserts, ric)
    ensures DecodeRic(maxEntries, inserts, EncodeRic(maxEntries, ric)) == Some(ric)
  {
    var full, maxValue := 2 * maxEntries, inserts + maxEntries;
    var q, k := ric / full, maxValue / full;
    assert ric == q * full + ric % full;
    WindowQuotient(full, maxValue, ric);
    assert q * full == k * full || q * full == k * full - full;
  }

  lemma WindowQuotient(full: nat, maxValue: nat, ric: nat)
    requires full > 0 && ric <= maxValue < ric + full
    ensures ric / full == maxValue / full || ric / full == maxValue / full - 1
    ensures ric / full == maxValue / full - 1 ==> (ric / full) * full == (maxValue / full) * full - full
  {
    var q, k := ric / full, maxValue / full;
    assert ric == q * full + ric % full && maxValue == k * full + maxValue % full;
    assert (q - k) * full == q * full - k * full && (k - q - 1) * full == k * full - q * full - full;
    if q > k {
      MulAtLeast(q - k, full);
    } else if q < k - 1 {
      MulAtLeast(k - q - 1, full);
    }
    assert (k - 1) * full == k * full - full;
  }

  /** A section found blocked is still understood the same way while it can become unblocked, and longer. */
  lemma BlockedStaysTheSame(maxEntries: nat, inserts: nat, later: nat, enc: nat, ric: nat)
    requires DecodeRic(maxEntries, inserts, enc) == Some(ric) && ric > inserts
    requires inserts <= later < ric + maxEntries
    ensures DecodeRic(maxEntries, later, enc) == Some(ric)
  {
    RicExactly(maxEntries, inserts, enc, ric);
    RicExactly(maxEntries, later, enc, ric);
  }

  // ---------- Field lines ----------

  /** qd_ref, dynamic: an absolute index below the Required Insert Count, still in the table. */
  function Dynamic(q: Option<Table>, index: nat, ric: nat): (r: Option<Entry>)
    requires q.Some? ==> q.value.WellFormed()
    ensures r.Some? ==> q.Some? && index < ric && index < |q.value.history| && r.value == q.value.history[index]
                        && |q.value.history| - q.value.live <= index
  {
    if q.Some? && index < ric then q.value.Get(index) else None
  }

  function Static(index: nat): Option<Entry> {
    if index < STATIC_N then Some(StaticEntry(index)) else None
  }

  function BelowBase(q: Option<Table>, v: nat, base: nat, ric: nat): Option<Entry>
    requires q.Some? ==> q.value.WellFormed()
  {
    if v < base then Dynamic(q, base - 1 - v, ric) else None
  }

  datatype RefKind = StaticRef | RelativeRef | PostBaseRef

  function Referred(q: Option<Table>, v: nat, kind: RefKind, base: nat, ric: nat): Option<Entry>
    requires q.Some? ==> q.value.WellFormed()
  {
    match kind
    case StaticRef => Static(v)
    case RelativeRef => BelowBase(q, v, base, ric)
    case PostBaseRef => Dynamic(q, base + v, ric)
  }

  /** A reference with a `bits`-bit prefix at `i`, and the index after it. */
  function Reference(q: Option<Table>, fs: seq<Byte>, i: nat, bits: nat, kind: RefKind, base: nat,
                     ric: nat): (r: Option<(Entry, nat)>)
    requires q.Some? ==> q.value.WellFormed()
    requires 1 <= bits <= 8
    ensures r.Some? ==> i < r.value.1 <= |fs|
  {
    match GetInt(fs, i, bits)
    case None => None
    case Some((v, j)) =>
      var e := Referred(q, v, kind, base, ric);
      if e.Some? then Some((e.value, j)) else None
  }

  /** The field line at `i`, and the index after it. */
  ghost function Line(c: Code, q: Option<Table>, fs: seq<Byte>, i: nat, base: nat, ric: nat): (r: Option<(Entry, nat)>)
    requires (q.Some? ==> q.value.WellFormed()) && i < |fs|
    ensures r.Some? ==> i < r.value.1 <= |fs|
  {
    var b := fs[i];
    if b >= 0x80 then Reference(q, fs, i, 6, if b >= 0xc0 then StaticRef else RelativeRef, base, ric)
    else if b >= 0x40 then
      WithValue(c, fs, Reference(q, fs, i, 4, if b % 0x20 >= 0x10 then StaticRef else RelativeRef, base, ric))
    else if b >= 0x20 then
      match GetString(c, fs, i, 3, STR_CAP)
      case None => None
      case Some((name, j)) => WithValue(c, fs, Some((Entry(name, []), j)))
    else if b >= 0x10 then Reference(q, fs, i, 4, PostBaseRef, base, ric)
    else WithValue(c, fs, Reference(q, fs, i, 3, PostBaseRef, base, ric))
  }

  /** The literal value that follows a name. */
  ghost function WithValue(c: Code, fs: seq<Byte>, named: Option<(Entry, nat)>): (r: Option<(Entry, nat)>)
    ensures r.Some? ==> named.Some? && named.value.1 < r.value.1 <= |fs|
  {
    match named
    case None => None
    case Some((e, j)) =>
      match GetString(c, fs, j, 7, STR_CAP)
      case None => None
      case Some((value, k)) => Some((Entry(e.name, value), k))
  }

  // ---------- Fields kept ----------

  /** h3_req_fields_t: empty where a field is missing. */
  datatype Fields = Fields(
    verb: seq<Byte>,
    path: seq<Byte>,
    authority: seq<Byte>,
    host: seq<Byte>,
    cookie: seq<Byte>,
    headers: seq<Byte>)

  const NO_FIELDS := Fields([], [], [], [], [], [])
  const VERB_CAP := 32
  const PATH_CAP := 8192
  const AUTHORITY_CAP := 256
  const COOKIE_CAP := 4096
  const HEADERS_CAP := 32768

  predicate TokenByte(b: Byte) {
    97 <= b <= 122 || 48 <= b <= 57 || b in {33, 35, 36, 37, 38, 39, 42, 43, 45, 46, 94, 95, 96, 124, 126}
  }

  lemma TokenBytes(b: Byte)
    ensures TokenByte(b)
            <==> 'a' as int <= b <= 'z' as int || '0' as int <= b <= '9' as int || b in Text("!#$%&'*+-.^_`|~")
  {
    var marks := Text("!#$%&'*+-.^_`|~");
    assert marks[0] == 33 && marks[1] == 35 && marks[2] == 36 && marks[3] == 37 && marks[4] == 38 && marks[5] == 39;
    assert marks[6] == 42 && marks[7] == 43 && marks[8] == 45 && marks[9] == 46 && marks[10] == 94;
    assert marks[11] == 95 && marks[12] == 96 && marks[13] == 124 && marks[14] == 126;
  }

  /** qd_name_ok */
  predicate NameOk(name: seq<Byte>) {
    name != [] && forall i :: 0 <= i < |name| ==> TokenByte(name[i])
  }

  predicate OneLine(value: seq<Byte>) {
    forall i :: 0 <= i < |value| ==> value[i] != 13 && value[i] != 10
  }

  function HeaderLine(name: seq<Byte>, value: seq<Byte>): seq<Byte> {
    name + [58, 32] + value + [13, 10]
  }

  function JoinCookie(have: seq<Byte>, value: seq<Byte>): seq<Byte> {
    if |have| + 2 + |value| < COOKIE_CAP then (if have == [] then value else have + [59, 32] + value) else have
  }

  /** qd_keep */
  function Keep(f: Fields, name: seq<Byte>, value: seq<Byte>): (r: Option<Fields>) {
    if name != [] && name[0] == 58 then KeepPseudo(f, name, value)
    else if !NameOk(name) || !OneLine(value) then None
    else if name == Text("host") then
      (if |value| >= AUTHORITY_CAP then None else Some(f.(host := value)))
    else if |f.headers| + |HeaderLine(name, value)| >= HEADERS_CAP then None
    else
      var g := f.(headers := f.headers + HeaderLine(name, value));
      Some(if name == Text("cookie") then g.(cookie := JoinCookie(f.cookie, value)) else g)
  }

  function KeepPseudo(f: Fields, name: seq<Byte>, value: seq<Byte>): (r: Option<Fields>) {
    if name == Text(":authority") then (if |value| >= AUTHORITY_CAP then None else Some(f.(authority := value)))
    else if name == Text(":path") then (if |value| >= PATH_CAP then None else Some(f.(path := value)))
    else if name == Text(":method") then (if |value| >= VERB_CAP then None else Some(f.(verb := value)))
    else Some(f)
  }

  /** All field lines from `i` on. */
  ghost function Lines(c: Code, q: Option<Table>, fs: seq<Byte>, i: nat, base: nat, ric: nat, f: Fields): Option<Fields>
    requires (q.Some? ==> q.value.WellFormed()) && i <= |fs|
    decreases |fs| - i
  {
    if i == |fs| then Some(f)
    else
      match Line(c, q, fs, i, base, ric)
      case None => None
      case Some((e, j)) =>
        match Keep(f, e.name, e.value)
        case None => None
        case Some(g) => Lines(c, q, fs, j, base, ric, g)
  }

  datatype Decoded = Malformed | Blocked(ric: nat) | Understood(ric: nat, fields: Fields)

  function Inserts(q: Option<Table>): nat {
    if q.Some? then |q.value.history| else 0
  }

  function MaxEntries(q: Option<Table>): nat {
    if q.Some? then q.value.maxCapacity / 32 else 0
  }

  /** The section prefix: Required Insert Count, Base, and the index of the first line. */
  function Prefix(q: Option<Table>, fs: seq<Byte>): (r: Option<(nat, nat, nat)>)
    ensures r.Some? ==> r.value.2 <= |fs|
  {
    match GetInt(fs, 0, 8)
    case None => None
    case Some((enc, i)) =>
      match DecodeRic(MaxEntries(q), Inserts(q), enc)
      case None => None
      case Some(ric) =>
        if i >= |fs| then None
        else
          match GetInt(fs, i, 7)
          case None => None
          case Some((v, j)) =>
            if fs[i] < 0x80 then Some((ric, ric + v, j))
            else if v + 1 > ric then None
            else Some((ric, ric - v - 1, j))
  }

  /** h3_decode_request */
  ghost function DecodeRequest(c: Code, q: Option<Table>, fs: seq<Byte>): Decoded
    requires q.Some? ==> q.value.WellFormed()
  {
    match Prefix(q, fs)
    case None => Malformed
    case Some((ric, base, i)) =>
      if ric > Inserts(q) then Blocked(ric)
      else
        match Lines(c, q, fs, i, base, ric, NO_FIELDS)
        case None => Malformed
        case Some(f) => Understood(ric, f)
  }

  // ---------- A section means the same whenever it is understood ----------

  /** Two tables on the same encoder stream: the second has seen more of it. */
  predicate Later(q: Option<Table>, r: Option<Table>) {
    && (q.Some? <==> r.Some?)
    && (q.Some? ==> q.value.WellFormed() && r.value.WellFormed()
                    && q.value.maxCapacity == r.value.maxCapacity && q.value.history <= r.value.history)
  }

  lemma LineStable(c: Code, q: Option<Table>, r: Option<Table>, fs: seq<Byte>, i: nat, base: nat, ric: nat)
    requires Later(q, r) && i < |fs| && Line(c, q, fs, i, base, ric).Some? && Line(c, r, fs, i, base, ric).Some?
    ensures Line(c, q, fs, i, base, ric) == Line(c, r, fs, i, base, ric)
  {
    hide GetString, GetInt, StaticEntry;
  }

  lemma {:induction false} LinesStable(c: Code, q: Option<Table>, r: Option<Table>, fs: seq<Byte>, i: nat,
                                       base: nat, ric: nat, f: Fields)
    requires Later(q, r) && i <= |fs|
    requires Lines(c, q, fs, i, base, ric, f).Some? && Lines(c, r, fs, i, base, ric, f).Some?
    ensures Lines(c, q, fs, i, base, ric, f) == Lines(c, r, fs, i, base, ric, f)
    decreases |fs| - i
  {
    hide Line, Keep;
    if i < |fs| {
      LineStable(c, q, r, fs, i, base, ric);
      var (e, j) := Line(c, q, fs, i, base, ric).value;
      LinesStable(c, q, r, fs, j, base, ric, Keep(f, e.name, e.value).value);
    }
  }

  /**
    A section reported blocked at `ric` stays blocked at that count until the insertions it waits for
    have come, and is then decoded, or refused, at that count.
    */
  lemma BlockedVerdict(c: Code, q: Option<Table>, r: Option<Table>, fs: seq<Byte>, ric: nat)
    requires Later(q, r) && DecodeRequest(c, q, fs) == Blocked(ric) && Inserts(r) < ric + MaxEntries(r)
    ensures DecodeRequest(c, r, fs) == Blocked(ric) <==> Inserts(r) < ric
    ensures DecodeRequest(c, r, fs).Blocked? ==> DecodeRequest(c, r, fs).ric == ric
    ensures DecodeRequest(c, r, fs).Understood? ==> DecodeRequest(c, r, fs).ric == ric
  {
    hide Lines, GetInt, DecodeRic;
    BlockedStaysTheSame(MaxEntries(q), Inserts(q), Inserts(r), GetInt(fs, 0, 8).value.0, ric);
    assert Prefix(r, fs) == Prefix(q, fs);
  }

  /** Insertions and evictions in between may make a section fail, but never change what it says. */
  lemma MeaningIsStable(c: Code, q: Option<Table>, r: Option<Table>, fs: seq<Byte>)
    requires Later(q, r)
    requires DecodeRequest(c, q, fs).Understood? && DecodeRequest(c, r, fs).Understood?
    requires Inserts(r) < DecodeRequest(c, q, fs).ric + MaxEntries(r) || DecodeRequest(c, q, fs).ric == 0
    ensures DecodeRequest(c, q, fs) == DecodeRequest(c, r, fs)
  {
    hide Lines, Keep, GetInt, DecodeRic;
    var (ric, base, i) := Prefix(q, fs).value;
    var enc := GetInt(fs, 0, 8).value.0;
    RicExactly(MaxEntries(q), Inserts(q), enc, ric);
    RicExactly(MaxEntries(r), Inserts(r), enc, ric);
    RicZero(MaxEntries(r), Inserts(r));
    assert Prefix(r, fs) == Prefix(q, fs);
    LinesStable(c, q, r, fs, i, base, ric, NO_FIELDS);
  }

  lemma RicZero(maxEntries: nat, inserts: nat)
    ensures DecodeRic(maxEntries, inserts, 0) == Some(0)
  {
  }
}
