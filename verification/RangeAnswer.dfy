/**
  filter_range of core/tincd/src/decoy.c: an answer that carries a whole body becomes one that carries
  the ranges the client asked for, alone or as multipart/byteranges. Header names and texts are bytes.
  */
module RangeAnswer {
  import opened Wrappers
  import opened Bits
  import opened ByteRanges

  const CR: Byte := 13
  const SLASH: Byte := 47

  const DECOY_MAX_RANGES := 64
  const DECOY_LIST_MAX := 24
  const ULONG_COUNT := 0x1_0000_0000_0000_0000

  // ---------- Texts ----------

  /** "%lld" of a number that is not negative. */
  function Decimal(n: nat): (s: seq<Byte>)
    ensures s != [] && Digits(s)
  {
    if n < 10 then [48 + n] else Decimal(n / 10) + [48 + n % 10]
  }

  lemma {:induction false} DecimalReadsBack(n: nat)
    ensures Value(Decimal(n)) == n
  {
    var s := Decimal(n);
    if n < 10 {
      assert s[..0] == [] && Value(s[..0]) == 0;
    } else {
      assert s[..|s| - 1] == Decimal(n / 10);
      DecimalReadsBack(n / 10);
    }
  }

  function Tens(k: nat): nat {
    if k == 0 then 1 else 10 * Tens(k - 1)
  }

  lemma {:induction false} DecimalFits(n: nat, k: nat)
    requires 0 < k && n < Tens(k)
    ensures |Decimal(n)| <= k
    decreases k
  {
    if 10 <= n {
      DecimalFits(n / 10, k - 1);
    }
  }

  /** A long long has at most 19 digits, an unsigned long at most 20. */
  lemma DecimalFitsLong(n: nat)
    ensures n <= LLONG_MAX ==> |Decimal(n)| <= 19
    ensures n < ULONG_COUNT ==> |Decimal(n)| <= 20
  {
    assert Tens(10) == 10000000000;
    assert Tens(19) == 10000000000000000000;
    if n <= LLONG_MAX {
      DecimalFits(n, 19);
    } else if n < ULONG_COUNT {
      DecimalFits(n, 20);
    }
  }

  /** "%020lu" */
  function Boundary(counter: nat): (s: seq<Byte>)
    requires counter < ULONG_COUNT
    ensures |s| == 20
  {
    var d := Decimal(counter);
    DecimalFitsLong(counter);
    seq(20 - |d|, _ => 48) + d
  }

  const OPENING := Text("\r\n--")
  const TYPE := Text("\r\nContent-Type: ")
  const RANGE := Text("\r\nContent-Range: ") + Text("bytes ")
  const BLANK_LINE := Text("\r\n\r\n")
  const CLOSING := Text("--\r\n")

  function RangeText(part: Part, len: nat): seq<Byte>
    requires 0 <= part.start < part.end
  {
    Decimal(part.start) + ([DASH] + (Decimal(part.end - 1) + ([SLASH] + Decimal(len))))
  }

  function Head(boundary: seq<Byte>, kind: seq<Byte>, part: Part, len: nat): seq<Byte>
    requires 0 <= part.start < part.end
  {
    OPENING + (boundary + (TYPE + (kind + (RANGE + (RangeText(part, len) + BLANK_LINE)))))
  }

  function Tail(boundary: seq<Byte>): seq<Byte> {
    OPENING + (boundary + CLOSING)
  }

  function Slice(body: seq<Byte>, part: Part): (s: seq<Byte>)
    requires 0 <= part.start < part.end <= |body|
    ensures |s| == part.Length()
  {
    body[part.start..part.end]
  }

  /** Header and slice of each range, one after the other. */
  function Sections(boundary: seq<Byte>, kind: seq<Byte>, parts: seq<Part>, body: seq<Byte>): seq<Byte>
    requires Proper(parts, |body|)
  {
    if parts == [] then []
    else
      var part := parts[|parts| - 1];
      Sections(boundary, kind, parts[..|parts| - 1], body) + (Head(boundary, kind, part, |body|) + Slice(body, part))
  }

  function Multipart(boundary: seq<Byte>, kind: seq<Byte>, parts: seq<Part>, body: seq<Byte>): seq<Byte>
    requires Proper(parts, |body|)
  {
    Sections(boundary, kind, parts, body) + Tail(boundary)
  }

  lemma HeadFits(boundary: seq<Byte>, kind: seq<Byte>, part: Part, len: nat)
    requires |boundary| == 20 && 0 <= part.start < part.end <= len <= LLONG_MAX
    ensures |Head(boundary, kind, part, len)| <= 126 + |kind|
  {
    DecimalFitsLong(part.start);
    DecimalFitsLong(part.end - 1);
    DecimalFitsLong(len);
  }

  // ---------- What a client makes of it ----------

  predicate StartsAt(text: seq<Byte>, i: nat, s: seq<Byte>) {
    i + |s| <= |text| && text[i..i + |s|] == s
  }

  ghost function CrFrom(text: seq<Byte>, i: nat): (j: nat)
    requires i <= |text|
    ensures i <= j <= |text| && (j < |text| ==> text[j] == CR)
    ensures forall x :: i <= x < j ==> text[x] != CR
    decreases |text| - i
  {
    if i == |text| || text[i] == CR then i else CrFrom(text, i + 1)
  }

  /** What "first-last/length" says. */
  datatype Span = Span(first: nat, last: nat, total: nat)

  /** "first-last/length", and the index after it. */
  ghost function ReadSpan(text: seq<Byte>, i: nat): (r: Option<(Span, nat)>)
    requires i <= |text|
    ensures r.Some? ==> i < r.value.1 <= |text|
  {
    var j := DigitsEnd(text, i);
    if j == i || At(text, j) != DASH then None
    else
      var k := DigitsEnd(text, j + 1);
      if At(text, k) != SLASH then None
      else
        var m := DigitsEnd(text, k + 1);
        Some((Span(Value(text[i..j]), Value(text[j + 1..k]), Value(text[k + 1..m])), m))
  }

  /** The positions and the blank line after them. */
  ghost function ReadRange(text: seq<Byte>, i: nat): (r: Option<(Span, nat)>)
    requires i <= |text|
    ensures r.Some? ==> i < r.value.1 <= |text|
  {
    match ReadSpan(text, i)
    case None => None
    case Some((span, m)) => if StartsAt(text, m, BLANK_LINE) then Some((span, m + |BLANK_LINE|)) else None
  }

  /** The header of one part: its type, its positions and the index after it. */
  ghost function ReadHead(text: seq<Byte>, i: nat, boundary: seq<Byte>): (r: Option<(seq<Byte>, Span, nat)>)
    requires i <= |text|
    ensures r.Some? ==> i < r.value.2 <= |text|
  {
    var lead := OPENING + (boundary + TYPE);
    if !StartsAt(text, i, lead) then None
    else
      var m := i + |lead|;
      var j := CrFrom(text, m);
      if !StartsAt(text, j, RANGE) then None
      else
        match ReadRange(text, j + |RANGE|)
        case None => None
        case Some((span, k)) => Some((text[m..j], span, k))
  }

  /** One part as a client has it. */
  datatype Piece = Piece(kind: seq<Byte>, span: Span, bytes: seq<Byte>)

  /** A client that knows the boundary reads the parts. */
  ghost function Received(text: seq<Byte>, i: nat, boundary: seq<Byte>): Option<seq<Piece>>
    requires i <= |text|
    decreases |text| - i
  {
    if StartsAt(text, i, Tail(boundary)) then Some([])
    else
      match ReadHead(text, i, boundary)
      case None => None
      case Some((kind, span, j)) =>
        if span.last < span.first || |text| - j < span.last + 1 - span.first then None
        else
          var k := j + (span.last + 1 - span.first);
          match Received(text, k, boundary)
          case None => None
          case Some(more) => Some([Piece(kind, span, text[j..k])] + more)
  }

  lemma SplitAt(text: seq<Byte>, i: nat, a: seq<Byte>, b: seq<Byte>)
    ensures StartsAt(text, i, a + b) <==> StartsAt(text, i, a) && StartsAt(text, i + |a|, b)
    ensures StartsAt(text, i, a + b) ==> i + |a| + |b| <= |text|
  {
    var m, j := i + |a|, i + |a + b|;
    if StartsAt(text, i, a + b) {
      assert text[i..m] == text[i..j][..|a|] && text[m..j] == text[i..j][|a|..];
    }
    if StartsAt(text, i, a) && StartsAt(text, m, b) {
      assert text[i..j] == text[i..m] + text[m..j];
    }
  }

  lemma DigitsEndAt(text: seq<Byte>, i: nat, n: nat)
    requires StartsAt(text, i, Decimal(n)) && !Digit(At(text, i + |Decimal(n)|))
    ensures var j := i + |Decimal(n)|; j <= |text| && DigitsEnd(text, i) == j && Value(text[i..j]) == n
  {
    hide Decimal, Value, DigitsEnd, Digits, Digit;
    DigitsEndIs(text, i, i + |Decimal(n)|);
    DecimalReadsBack(n);
  }

  lemma {:induction false} DigitsEndIs(text: seq<Byte>, i: nat, j: nat)
    requires i <= j <= |text| && Digits(text[i..j]) && !Digit(At(text, j))
    ensures DigitsEnd(text, i) == j
    decreases j - i
  {
    if i < j {
      assert text[i] == text[i..j][0] && text[i + 1..j] == text[i..j][1..];
      DigitsEndIs(text, i + 1, j);
    }
  }

  lemma BlankLineStarts(text: seq<Byte>, i: nat)
    requires StartsAt(text, i, BLANK_LINE)
    ensures StartsAt(text, i, [CR])
  {
    hide StartsAt;
    assert BLANK_LINE == [CR] + BLANK_LINE[1..];
    SplitAt(text, i, [CR], BLANK_LINE[1..]);
  }

  lemma ReadSpanBack(text: seq<Byte>, i: nat, part: Part, len: nat)
    requires 0 <= part.start < part.end && i <= |text| && StartsAt(text, i, RangeText(part, len))
    requires !Digit(At(text, i + |RangeText(part, len)|))
    ensures ReadSpan(text, i) == Some((Span(part.start, part.end - 1, len), i + |RangeText(part, len)|))
  {
    hide Decimal, Value, StartsAt, DigitsEnd, Digits;
    var a, b, c := Decimal(part.start), Decimal(part.end - 1), Decimal(len);
    SplitAt(text, i, a, [DASH] + (b + ([SLASH] + c)));
    var j := i + |a|;
    SplitAt(text, j, [DASH], b + ([SLASH] + c));
    SplitAt(text, j + 1, b, [SLASH] + c);
    var k := j + 1 + |b|;
    SplitAt(text, k, [SLASH], c);
    OneAt(text, j, DASH);
    OneAt(text, k, SLASH);
    DigitsEndAt(text, i, part.start);
    DigitsEndAt(text, j + 1, part.end - 1);
    DigitsEndAt(text, k + 1, len);
  }

  lemma OneAt(text: seq<Byte>, i: nat, c: Byte)
    requires StartsAt(text, i, [c])
    ensures At(text, i) == c
  {
    assert text[i] == text[i..i + 1][0] == c;
  }

  lemma ReadRangeBack(text: seq<Byte>, i: nat, part: Part, len: nat)
    requires 0 <= part.start < part.end && i <= |text| && StartsAt(text, i, RangeText(part, len) + BLANK_LINE)
    ensures ReadRange(text, i)
            == Some((Span(part.start, part.end - 1, len), i + |RangeText(part, len) + BLANK_LINE|))
  {
    hide StartsAt, ReadSpan, RangeText, BLANK_LINE;
    SplitAt(text, i, RangeText(part, len), BLANK_LINE);
    var m := i + |RangeText(part, len)|;
    BlankLineStarts(text, m);
    OneAt(text, m, CR);
    ReadSpanBack(text, i, part, len);
  }

  predicate NoReturn(kind: seq<Byte>) {
    forall x :: 0 <= x < |kind| ==> kind[x] != CR
  }

  lemma CrFromAt(text: seq<Byte>, i: nat, kind: seq<Byte>)
    requires NoReturn(kind) && StartsAt(text, i, kind) && StartsAt(text, i + |kind|, [CR])
    ensures CrFrom(text, i) == i + |kind|
  {
    var j := i + |kind|;
    assert text[j] == text[j..j + 1][0] == CR;
    forall x | i <= x < j ensures text[x] != CR { assert text[x] == text[i..j][x - i]; }
  }

  lemma ReadHeadBack(text: seq<Byte>, i: nat, boundary: seq<Byte>, kind: seq<Byte>, part: Part, len: nat)
    requires 0 <= part.start < part.end && i <= |text| && NoReturn(kind)
    requires StartsAt(text, i, Head(boundary, kind, part, len))
    ensures ReadHead(text, i, boundary)
            == Some((kind, Span(part.start, part.end - 1, len), i + |Head(boundary, kind, part, len)|))
  {
    hide StartsAt, RangeText, ReadRange;
    var lead := OPENING + (boundary + TYPE);
    var last := RangeText(part, len) + BLANK_LINE;
    assert Head(boundary, kind, part, len) == lead + (kind + (RANGE + last));
    SplitAt(text, i, lead, kind + (RANGE + last));
    var j := i + |lead|;
    SplitAt(text, j, kind, RANGE + last);
    var k := j + |kind|;
    SplitAt(text, k, RANGE, last);
    assert RANGE == [CR] + RANGE[1..];
    SplitAt(text, k, [CR], RANGE[1..]);
    CrFromAt(text, j, kind);
    TakenAt(text, j, kind);
    ReadRangeBack(text, k + |RANGE|, part, len);
  }

  lemma HeadIsNoTail(text: seq<Byte>, i: nat, boundary: seq<Byte>, kind: seq<Byte>, part: Part, len: nat)
    requires 0 <= part.start < part.end && StartsAt(text, i, Head(boundary, kind, part, len))
    ensures !StartsAt(text, i, Tail(boundary))
  {
    hide StartsAt, RangeText;
    var rest := kind + (RANGE + (RangeText(part, len) + BLANK_LINE));
    SplitAt(text, i, OPENING, boundary + (TYPE + rest));
    SplitAt(text, i + 4, boundary, TYPE + rest);
    SplitAt(text, i + 4 + |boundary|, TYPE, rest);
    SplitAt(text, i, OPENING, boundary + CLOSING);
    SplitAt(text, i + 4, boundary, CLOSING);
    Differ(text, i + 4 + |boundary|, TYPE, CLOSING);
  }

  lemma Differ(text: seq<Byte>, i: nat, a: seq<Byte>, b: seq<Byte>)
    requires StartsAt(text, i, a) && a != [] && b != [] && a[0] != b[0]
    ensures !StartsAt(text, i, b)
  {
    assert text[i] == text[i..i + |a|][0];
    assert i + |b| <= |text| ==> text[i..i + |b|][0] == text[i];
  }

  lemma {:induction false} SectionsPrefix(boundary: seq<Byte>, kind: seq<Byte>, parts: seq<Part>, body: seq<Byte>,
                                          k: nat)
    requires Proper(parts, |body|) && k <= |parts|
    ensures Sections(boundary, kind, parts[..k], body) <= Sections(boundary, kind, parts, body)
    decreases |parts|
  {
    if k == |parts| {
      assert parts[..k] == parts;
    } else {
      var less := parts[..|parts| - 1];
      assert less[..k] == parts[..k];
      SectionsPrefix(boundary, kind, less, body, k);
    }
  }

  /** The parts a client is to have, from the k-th on. */
  function Expected(kind: seq<Byte>, parts: seq<Part>, body: seq<Byte>, k: nat): seq<Piece>
    requires Proper(parts, |body|) && k <= |parts|
    decreases |parts| - k
  {
    if k == |parts| then []
    else
      [Piece(kind, Span(parts[k].start, parts[k].end - 1, |body|), body[parts[k].start..parts[k].end])]
      + Expected(kind, parts, body, k + 1)
  }

  lemma SectionAt(boundary: seq<Byte>, kind: seq<Byte>, parts: seq<Part>, body: seq<Byte>, k: nat)
    requires Proper(parts, |body|) && k < |parts|
    ensures var before := Sections(boundary, kind, parts[..k], body);
            var section := Head(boundary, kind, parts[k], |body|) + Slice(body, parts[k]);
            && Sections(boundary, kind, parts[..k + 1], body) == before + section
            && StartsAt(Multipart(boundary, kind, parts, body), |before|, section)
  {
    hide Head, Slice;
    var next := parts[..k + 1];
    assert next[..k] == parts[..k] && next[k] == parts[k];
    SectionsPrefix(boundary, kind, parts, body, k + 1);
    var text := Multipart(boundary, kind, parts, body);
    var before := Sections(boundary, kind, parts[..k], body);
    var section := Head(boundary, kind, parts[k], |body|) + Slice(body, parts[k]);
    assert text[..|before + section|] == before + section;
    assert text[|before|..|before + section|] == (before + section)[|before|..];
  }

  lemma {:induction false} ReceivedFrom(boundary: seq<Byte>, kind: seq<Byte>, parts: seq<Part>, body: seq<Byte>, k: nat)
    requires Proper(parts, |body|) && NoReturn(kind) && k <= |parts|
    ensures var i := |Sections(boundary, kind, parts[..k], body)|;
            var text := Multipart(boundary, kind, parts, body);
            i <= |text| && Received(text, i, boundary) == Some(Expected(kind, parts, body, k))
    decreases |parts| - k
  {
    hide Head, ReadHead, StartsAt, Sections, Tail;
    var i := |Sections(boundary, kind, parts[..k], body)|;
    var text := Multipart(boundary, kind, parts, body);
    SectionsPrefix(boundary, kind, parts, body, k);
    if k == |parts| {
      assert parts[..k] == parts;
      TailAt(boundary, kind, parts, body);
    } else {
      var part := parts[k];
      var head := Head(boundary, kind, part, |body|);
      SectionAt(boundary, kind, parts, body, k);
      SplitAt(text, i, head, Slice(body, part));
      HeadIsNoTail(text, i, boundary, kind, part, |body|);
      ReadHeadBack(text, i, boundary, kind, part, |body|);
      TakenAt(text, i + |head|, Slice(body, part));
      ReceivedFrom(boundary, kind, parts, body, k + 1);
    }
  }

  lemma TailAt(boundary: seq<Byte>, kind: seq<Byte>, parts: seq<Part>, body: seq<Byte>)
    requires Proper(parts, |body|)
    ensures StartsAt(Multipart(boundary, kind, parts, body), |Sections(boundary, kind, parts, body)|, Tail(boundary))
  {
  }

  lemma TakenAt(text: seq<Byte>, i: nat, s: seq<Byte>)
    requires StartsAt(text, i, s)
    ensures i + |s| <= |text| && text[i..i + |s|] == s
  {
  }

  /** The boundary a multipart type names. */
  function BoundaryIn(kind: seq<Byte>): Option<seq<Byte>> {
    var lead := Text("multipart/byteranges") + Text("; boundary=");
    if lead <= kind then Some(kind[|lead|..]) else None
  }

  /**
    A client that takes the boundary from the type of the answer reads back exactly the slices that were
    asked for, each with its type and positions, in order, whatever the body holds, even the boundary itself.
    */
  lemma ReceivedBack(boundary: seq<Byte>, kind: seq<Byte>, parts: seq<Part>, body: seq<Byte>)
    requires Proper(parts, |body|) && NoReturn(kind)
    ensures BoundaryIn(MultipartType(boundary)) == Some(boundary)
    ensures Received(Multipart(boundary, kind, parts, body), 0, boundary) == Some(Expected(kind, parts, body, 0))
  {
    assert parts[..0] == [];
    ReceivedFrom(boundary, kind, parts, body, 0);
  }

  /** The Content-Range of a single slice says where it lies. */
  lemma SpanReadBack(part: Part, len: nat)
    requires 0 <= part.start < part.end
    ensures var value := Text("bytes ") + RangeText(part, len);
            ReadSpan(value, 6) == Some((Span(part.start, part.end - 1, len), |value|))
  {
    hide ReadSpan, RangeText;
    var value := Text("bytes ") + RangeText(part, len);
    assert value[6..|value|] == RangeText(part, len);
    ReadSpanBack(value, 6, part, len);
  }

  /** Boundaries are numerals of the counter; no two answers in 2^64 share one. */
  lemma BoundaryReadsBack(counter: nat)
    requires counter < ULONG_COUNT
    ensures Digits(Boundary(counter)) && Value(Boundary(counter)) == counter
  {
    var d := Decimal(counter);
    DecimalFitsLong(counter);
    DecimalReadsBack(counter);
    LeadingZeros(20 - |d|, d);
  }

  lemma {:induction false} LeadingZeros(n: nat, d: seq<Byte>)
    requires Digits(d)
    ensures var z: seq<Byte> := seq(n, _ => 48); Digits(z + d) && Value(z + d) == Value(d)
    decreases |d|, n
  {
    var z: seq<Byte> := seq(n, _ => 48);
    if d != [] {
      LeadingZeros(n, d[..|d| - 1]);
      assert (z + d)[..|z + d| - 1] == z + d[..|d| - 1];
    } else if n > 0 {
      LeadingZeros(n - 1, []);
      var y: seq<Byte> := seq(n - 1, _ => 48);
      assert (z + [])[..n - 1] == y + [];
    }
  }

  // ---------- The answer ----------

  datatype Header = Header(name: seq<Byte>, value: seq<Byte>)

  /** What filter_range reads of the request. `ifRangeTime` is If-Range read as a date. */
  datatype Asking = Asking(
    version: int,
    keepAlive: bool,
    range: Option<seq<Byte>>,
    ifRange: Option<seq<Byte>>,
    ifRangeTime: int)

  /** strcasecmp and strncasecmp */
  predicate SameName(a: seq<Byte>, b: seq<Byte>) {
    |a| == |b| && forall i :: 0 <= i < |a| ==> Lower(a[i]) == Lower(b[i])
  }

  /** Names are the same but for the case of letters. */
  lemma SameNameMeans(a: seq<Byte>, b: seq<Byte>)
    ensures SameName(a, b)
            <==> |a| == |b| && forall i :: 0 <= i < |a| ==>
                   || a[i] == b[i]
                   || ('A' as int <= a[i] <= 'Z' as int && b[i] as int == a[i] as int + 32)
                   || ('A' as int <= b[i] <= 'Z' as int && a[i] as int == b[i] as int + 32)
  {
  }

  predicate Named(list: seq<Header>, name: seq<Byte>) {
    exists i :: 0 <= i < |list| && SameName(list[i].name, name)
  }

  /** `i` is the first header of that name. */
  predicate FirstNamed(list: seq<Header>, name: seq<Byte>, i: nat) {
    i < |list| && SameName(list[i].name, name) && forall j :: 0 <= j < i ==> !SameName(list[j].name, name)
  }

  function Extended(list: seq<Header>, name: seq<Byte>, value: seq<Byte>): seq<Header> {
    if |list| < DECOY_LIST_MAX then list + [Header(name, value)] else list
  }

  function Offered(list: seq<Header>): seq<Header> {
    if Named(list, ACCEPT_RANGES) then list else Extended(list, ACCEPT_RANGES, Text("bytes"))
  }

  function Ranged(list: seq<Header>, part: Part, len: nat): seq<Header>
    requires 0 <= part.start < part.end
  {
    Extended(list, CONTENT_RANGE, Text("bytes ") + RangeText(part, len))
  }

  function Unranged(list: seq<Header>, len: nat): seq<Header> {
    Extended(list, CONTENT_RANGE, Text("bytes */") + Decimal(len))
  }

  function MultipartType(boundary: seq<Byte>): seq<Byte> {
    Text("multipart/byteranges") + Text("; boundary=") + boundary
  }

  /** The list without the first header of that name. */
  function Deleted(list: seq<Header>, name: seq<Byte>): (r: seq<Header>)
    ensures |r| <= |list|
  {
    if list == [] then []
    else if SameName(list[0].name, name) then list[1..]
    else [list[0]] + Deleted(list[1..], name)
  }

  lemma {:induction false} DeletedNone(list: seq<Header>, name: seq<Byte>)
    requires forall j :: 0 <= j < |list| ==> !SameName(list[j].name, name)
    ensures Deleted(list, name) == list
  {
    hide SameName;
    if list != [] {
      DeletedNone(list[1..], name);
      assert list == [list[0]] + list[1..];
    }
  }

  lemma {:induction false} DeletedFirst(list: seq<Header>, name: seq<Byte>, i: nat)
    requires FirstNamed(list, name, i)
    ensures Deleted(list, name) == list[..i] + list[i + 1..]
    decreases i
  {
    hide SameName;
    if i == 0 {
      assert list[..0] + list[1..] == list[1..];
    } else {
      var rest := list[1..];
      DeletedFirst(rest, name, i - 1);
      assert list[..i] == [list[0]] + rest[..i - 1] && list[i + 1..] == rest[i..];
    }
  }

  /** The list of an error answer: what described the file is gone. */
  function Cleared(list: seq<Header>): (r: seq<Header>)
    ensures |r| <= |list|
  {
    Deleted(Deleted(list, ETAG), ACCEPT_RANGES)
  }

  // ---------- Error pages ----------

  /** 494 and 497 go out as 400. */
  function ShownAs(code: nat): nat {
    if code == 494 || code == 497 then 400 else code
  }

  /** reason_for */
  function ReasonFor(code: nat): seq<Byte> {
    match code
    case 200 => Text("OK")
    case 206 => Text("Partial Content")
    case 301 => Text("Moved Permanently")
    case 304 => Text("Not Modified")
    case 403 => Text("Forbidden")
    case 404 => Text("Not Found")
    case 405 => Text("Not Allowed")
    case 412 => Text("Precondition Failed")
    case 414 => Text("Request-URI Too Large")
    case 416 => Text("Requested Range Not Satisfiable")
    case 505 => Text("HTTP Version Not Supported")
    case _ => Text("Bad Request")
  }

  /** The statuses that end the connection. */
  predicate Ends(code: nat) {
    code == 400 || code == 413 || code == 414 || code == 500 || code == 501 || code == 505
  }

  const PAGE_TITLE := Text("<html>\r\n<head><title>")
  const PAGE_BODY := Text("</title></head>\r\n<body>\r\n<center><h1>")
  const PAGE_RULE := Text("</h1></center>\r\n")
  const PAGE_END := Text("<hr><center>nginx</center>\r\n</body>\r\n</html>\r\n")

  function ErrorPage(code: nat): seq<Byte> {
    if code == 494 then SpecialPage(Text("Request Header Or Cookie Too Large"))
    else if code == 497 then SpecialPage(Text("The plain HTTP request was sent to HTTPS port"))
    else
      var line := Decimal(code) + [SPACE] + ReasonFor(code);
      PAGE_TITLE + line + PAGE_BODY + line + PAGE_RULE + PAGE_END
  }

  function SpecialPage(extra: seq<Byte>): seq<Byte> {
    PAGE_TITLE + Text("400 ") + extra + PAGE_BODY + Text("400 Bad Request") + PAGE_RULE
    + Text("<center>") + extra + Text("</center>\r\n") + PAGE_END
  }

  const PARTIAL := Text("Partial Content")
  const ETAG := Text("ETag")
  const CONTENT_RANGE := Text("Content-Range")
  const ACCEPT_RANGES := Text("Accept-Ranges")
  const BYTES := Text("bytes=")
  const QUOTE: Byte := 34

  /** The Range header is one of byte ranges. */
  predicate ByteRange(range: Option<seq<Byte>>) {
    range.Some? && |range.value| >= 7 && SameName(range.value[..6], BYTES)
  }

  /** The header is "bytes=" in any case, and something after it. */
  lemma ByteRangeExactly(range: seq<Byte>)
    ensures ByteRange(Some(range))
            <==> exists unit, rest :: range == unit + rest && rest != [] && SameName(unit, Text("bytes="))
  {
    hide SameName;
    if ByteRange(Some(range)) {
      assert range == range[..6] + range[6..] && range[6..] != [];
    }
    forall unit, rest: seq<Byte> | range == unit + rest && rest != [] && SameName(unit, Text("bytes="))
      ensures ByteRange(Some(range))
    {
      SameLength(unit, Text("bytes="));
      assert range[..6] == unit;
    }
  }

  lemma SameLength(a: seq<Byte>, b: seq<Byte>)
    requires SameName(a, b)
    ensures |a| == |b|
  {
  }

  lemma TextJoin(s: string, t: string)
    ensures Text(s + t) == Text(s) + Text(t)
  {
  }

  const TITLE_416 := "416 " + "Requested Range Not Satisfiable"

  /** The page that goes out for ranges that cannot be served. */
  lemma RefusalPage()
    ensures ReasonFor(416) == Text("Requested Range Not Satisfiable")
    ensures ErrorPage(416)
            == Text("<html>\r\n<head><title>" + TITLE_416 + "</title></head>\r\n<body>\r\n<center><h1>" + TITLE_416
                 + "</h1></center>\r\n" + "<hr><center>nginx</center>\r\n</body>\r\n</html>\r\n")
  {
    var a, b, c, d := "<html>\r\n<head><title>", "</title></head>\r\n<body>\r\n<center><h1>",
      "</h1></center>\r\n", "<hr><center>nginx</center>\r\n</body>\r\n</html>\r\n";
    TitleLine();
    hide Text, Decimal, ReasonFor;
    TextJoin(a, TITLE_416);
    TextJoin(a + TITLE_416, b);
    TextJoin(a + TITLE_416 + b, TITLE_416);
    TextJoin(a + TITLE_416 + b + TITLE_416, c);
    TextJoin(a + TITLE_416 + b + TITLE_416 + c, d);
  }

  lemma TitleLine()
    ensures ReasonFor(416) == Text("Requested Range Not Satisfiable")
    ensures Decimal(416) + [SPACE] + ReasonFor(416) == Text(TITLE_416)
  {
    assert Decimal(4) == [52] && Decimal(41) == Decimal(4) + [49] && Decimal(416) == Decimal(41) + [54];
    assert Text("416 ") == [52, 49, 54, 32];
    hide Text, Decimal;
    TextJoin("416 ", "Requested Range Not Satisfiable");
  }

  /** What goes out for the ranges: the slice itself, or all slices as parts. */
  function Payload(boundary: seq<Byte>, kind: seq<Byte>, parts: seq<Part>, body: seq<Byte>): seq<Byte>
    requires Servable(parts, |body|, DECOY_MAX_RANGES)
  {
    if |parts| == 1 then Slice(body, parts[0]) else Multipart(boundary, kind, parts, body)
  }

  /** Room the code sets aside for the parts. */
  function Room(kind: seq<Byte>, parts: seq<Part>): int {
    if parts == [] then 0 else Room(kind, parts[..|parts| - 1]) + 128 + |kind| + parts[|parts| - 1].Length()
  }

  lemma {:induction false} RoomGrows(kind: seq<Byte>, parts: seq<Part>, k: nat, len: nat)
    requires Proper(parts, len) && k <= |parts|
    ensures Room(kind, parts[..k]) <= Room(kind, parts)
    decreases |parts|
  {
    if k == |parts| {
      assert parts[..k] == parts;
    } else {
      var less := parts[..|parts| - 1];
      assert less[..k] == parts[..k];
      RoomGrows(kind, less, k, len);
    }
  }

  lemma RoomNext(kind: seq<Byte>, parts: seq<Part>, k: nat, len: nat)
    requires Proper(parts, len) && k < |parts|
    ensures Room(kind, parts[..k + 1]) == Room(kind, parts[..k]) + 128 + |kind| + parts[k].Length()
    ensures 0 <= Room(kind, parts[..k + 1]) <= Room(kind, parts)
  {
    var next := parts[..k + 1];
    assert next[..k] == parts[..k] && next[k] == parts[k];
    RoomGrows(kind, parts, k + 1, len);
    RoomGrows(kind, next, 0, len);
    assert next[..0] == [];
  }

  /** memcpy into the buffer at `o`. */
  method Copy(out: array<Byte>, o: nat, s: seq<Byte>)
    requires o + |s| <= out.Length
    modifies out
    ensures out[..o] == old(out[..o]) && out[o..o + |s|] == s
  {
    forall k | 0 <= k < |s| {
      out[o + k] := s[k];
    }
  }

  /** snprintf at `o`: the text and a NUL, none of it cut off. */
  method Print(out: array<Byte>, o: nat, s: seq<Byte>)
    requires o + |s| < out.Length
    modifies out
    ensures out[..o] == old(out[..o]) && out[o..o + |s|] == s
  {
    forall k | 0 <= k < |s| {
      out[o + k] := s[k];
    }
    out[o + |s|] := 0;
  }

  /** One part: its header and its slice, behind what is there. */
  method EmitPart(out: array<Byte>, o: nat, boundary: seq<Byte>, kind: seq<Byte>, part: Part, body: array<Byte>,
                  len: nat) returns (end: nat)
    requires out != body && len <= body.Length && 0 <= part.start < part.end <= len <= LLONG_MAX && |boundary| == 20
    requires o + 128 + |kind| + part.Length() <= out.Length
    modifies out
    ensures o <= end <= o + 128 + |kind| + part.Length() && end <= out.Length
    ensures out[..end] == old(out[..o]) + (Head(boundary, kind, part, len) + Slice(body[..len], part))
  {
    hide Head;
    var head := Head(boundary, kind, part, len);
    HeadFits(boundary, kind, part, len);
    var slice := body[part.start..part.end];
    assert slice == Slice(body[..len], part);
    Print(out, o, head);
    var m := o + |head|;
    assert out[..m] == old(out[..o]) + head;
    Copy(out, m, slice);
    end := m + |slice|;
    assert out[..end] == out[..m] + out[m..end];
  }

  /** The buffer set aside is always large enough, and the parts fill it exactly as laid out. */
  method EmitParts(boundary: seq<Byte>, kind: seq<Byte>, parts: seq<Part>, body: array<Byte>, blen: nat,
                   len: nat) returns (out: array<Byte>, o: nat)
    requires Proper(parts, len) && len <= body.Length && len <= LLONG_MAX && |boundary| == 20
    ensures fresh(out) && o <= out.Length
    ensures out[..o] == Multipart(boundary, kind, parts, body[..len])
  {
    hide Tail, Head, Slice;
    var cap := 64 + blen;
    for i := 0 to |parts|
      invariant cap == 64 + blen + Room(kind, parts[..i])
    {
      RoomNext(kind, parts, i, len);
      cap := cap + 128 + |kind| + parts[i].Length();
    }
    assert parts[..|parts|] == parts;
    RoomGrows(kind, parts, 0, len);
    out := new Byte[cap](_ => 0);
    o := 0;
    for i := 0 to |parts|
      invariant o <= Room(kind, parts[..i]) <= cap - 64 && o <= out.Length
      invariant out[..o] == Sections(boundary, kind, parts[..i], body[..len])
    {
      RoomNext(kind, parts, i, len);
      SectionAt(boundary, kind, parts, body[..len], i);
      o := EmitPart(out, o, boundary, kind, parts[i], body, len);
    }
    var tail := Tail(boundary);
    TailFits(boundary);
    Print(out, o, tail);
    assert out[..o + |tail|] == out[..o] + tail;
    o := o + |tail|;
  }

  lemma TailFits(boundary: seq<Byte>)
    ensures |Tail(boundary)| == 8 + |boundary|
  {
  }

  /** decoy_answer_t, without what filter_range does not touch. */
  class Answer {
    var status: int
    var contentType: Option<seq<Byte>>
    var contentLength: int
    var lastModified: int
    var reason: seq<Byte>
    var keepAlive: bool
    var list: seq<Header>
    var body: array<Byte>
    var blen: nat
    var headerOnly: bool

    ghost predicate Valid() reads this {
      && blen <= body.Length
      && |list| <= DECOY_LIST_MAX
      && -1 <= contentLength
    }

    /** The bytes that follow the header. */
    ghost function Sent(): seq<Byte>
      requires Valid()
      reads this, body
    {
      body[..blen]
    }

    /** list_find; -1 when there is none. */
    method ListFind(name: seq<Byte>) returns (i: int)
      ensures i < 0 <==> !Named(list, name)
      ensures 0 <= i ==> FirstNamed(list, name, i)
    {
      i := 0;
      while i < |list|
        invariant 0 <= i <= |list|
        invariant forall j :: 0 <= j < i ==> !SameName(list[j].name, name)
      {
        if SameName(list[i].name, name) {
          return;
        }
        i := i + 1;
      }
      i := -1;
    }

    method ListAdd(name: seq<Byte>, value: seq<Byte>)
      modifies this`list
      ensures list == Extended(old(list), name, value)
    {
      if |list| < DECOY_LIST_MAX {
        list := list + [Header(name, value)];
      }
    }

    /** Only the first header of that name goes. */
    method ListDel(name: seq<Byte>)
      modifies this`list
      ensures list == Deleted(old(list), name)
    {
      var i := ListFind(name);
      if i < 0 {
        DeletedNone(list, name);
      } else {
        DeletedFirst(list, name, i);
        list := list[..i] + list[i + 1..];
      }
    }

    /** error_answer */
    method ErrorAnswer(code: nat, keep: bool)
      requires Valid()
      modifies this
      ensures Valid() && headerOnly == old(headerOnly)
      ensures status == ShownAs(code) && reason == ReasonFor(ShownAs(code))
      ensures contentType == Some(Text("text/html")) && lastModified == 0
      ensures list == Cleared(old(list))
      ensures Sent() == ErrorPage(code) && contentLength == |ErrorPage(code)|
      ensures keepAlive <==> keep && !Ends(ShownAs(code))
    {
      hide ErrorPage, ReasonFor, Deleted;
      status, reason, contentType, lastModified := ShownAs(code), ReasonFor(ShownAs(code)), Some(Text("text/html")), 0;
      ListDel(ETAG);
      ListDel(ACCEPT_RANGES);
      SetBody(ErrorPage(code));
      keepAlive := keep && !Ends(status);
    }

    /** set_body */
    method SetBody(page: seq<Byte>)
      modifies this`body, this`blen, this`contentLength
      ensures blen == body.Length == contentLength == |page| && body[..blen] == page
    {
      body := new Byte[|page|](i requires 0 <= i < |page| => page[i]);
      blen, contentLength := |page|, |page|;
    }

    /** The range is to be looked at, as far as If-Range goes. */
    ghost predicate Unchanged(asking: Asking) reads this {
      match asking.ifRange
      case None => true
      case Some(tag) =>
        if |tag| >= 2 && tag[|tag| - 1] == QUOTE then
          exists i: nat :: FirstNamed(list, ETAG, i) && list[i].value == tag
        else lastModified != 0 && asking.ifRangeTime == lastModified
    }

    method CheckUnchanged(asking: Asking) returns (same: bool)
      ensures same == Unchanged(asking)
    {
      if asking.ifRange.None? {
        return true;
      }
      var tag := asking.ifRange.value;
      if |tag| >= 2 && tag[|tag| - 1] == QUOTE {
        var i := ListFind(ETAG);
        if i < 0 {
          return false;
        }
        return list[i].value == tag;
      }
      return lastModified != 0 && asking.ifRangeTime == lastModified;
    }

    ghost predicate Applies(asking: Asking, allow: bool) reads this {
      asking.version >= 1000 && status == 200 && contentLength != -1 && allow
    }

    /** What the request asks of this answer. */
    ghost function Wanted(asking: Asking): ByteRanges.Answer
      requires 0 <= contentLength
      reads this
    {
      if ByteRange(asking.range) && Unchanged(asking) then
        Ranges(asking.range.value, contentLength, DECOY_MAX_RANGES)
      else Whole
    }

    ghost function Kind(): seq<Byte> reads this {
      if contentType.Some? then contentType.value else []
    }

    /** One range: the slice is moved to the front of the body. */
    method ServeOne(part: Part)
      requires Valid() && 0 <= part.start < part.end <= blen == contentLength
      modifies this, body
      ensures Valid() && status == 206 && reason == PARTIAL && keepAlive == old(keepAlive)
      ensures headerOnly == old(headerOnly)
      ensures contentLength == part.Length()
      ensures Sent() == if headerOnly then [] else Slice(old(Sent()), part)
      ensures list == Ranged(old(list), part, old(contentLength))
      ensures contentType == old(contentType)
    {
      status, reason := 206, PARTIAL;
      ListAdd(CONTENT_RANGE, Text("bytes ") + RangeText(part, contentLength));
      var n := part.end - part.start;
      if !headerOnly {
        forall k | 0 <= k < n {
          body[k] := body[part.start + k];
        }
        assert forall k :: 0 <= k < n ==> body[k] == old(Sent())[part.start + k];
        assert body[..n] == Slice(old(Sent()), part);
      }
      blen := if headerOnly then 0 else n;
      contentLength := n;
    }

    /** Several ranges: a new body, laid out as multipart/byteranges. */
    method ServeMany(parts: seq<Part>, boundary: seq<Byte>)
      requires Valid() && blen == contentLength <= LLONG_MAX && Proper(parts, blen) && |boundary| == 20
      modifies this
      ensures Valid() && status == 206 && reason == PARTIAL && keepAlive == old(keepAlive)
      ensures headerOnly == old(headerOnly)
      ensures contentLength == |Multipart(boundary, old(Kind()), parts, old(Sent()))|
      ensures Sent() == if headerOnly then [] else Multipart(boundary, old(Kind()), parts, old(Sent()))
      ensures list == old(list)
      ensures contentType == Some(MultipartType(boundary))
    {
      hide Multipart;
      status, reason := 206, PARTIAL;
      var kind := if contentType.Some? then contentType.value else [];
      var out, o := EmitParts(boundary, kind, parts, body, blen, contentLength);
      contentType := Some(MultipartType(boundary));
      body := out;
      blen := if headerOnly then 0 else o;
      contentLength := o;
    }

    /** A 416, with its own Content-Range and error page. */
    method Refuse(keep: bool)
      requires Valid() && 0 <= contentLength
      modifies this
      ensures Valid() && status == 416 && headerOnly == old(headerOnly) && (keepAlive <==> keep)
      ensures Sent() == ErrorPage(416) && contentLength == |ErrorPage(416)| && reason == ReasonFor(416)
      ensures contentType == Some(Text("text/html")) && lastModified == 0
      ensures list == Cleared(Unranged(old(list), old(contentLength)))
    {
      hide ErrorPage, ReasonFor, Cleared;
      ListAdd(CONTENT_RANGE, Text("bytes */") + Decimal(contentLength));
      ErrorAnswer(416, keep);
    }

    /** The whole body stays; Accept-Ranges is offered. */
    method Offer()
      requires Valid()
      modifies this`list
      ensures Valid()
      ensures list == Offered(old(list))
    {
      var i := ListFind(ACCEPT_RANGES);
      if i < 0 {
        ListAdd(ACCEPT_RANGES, Text("bytes"));
      }
    }

    /** parse_ranges into the two arrays on the stack. */
    method Parse(range: seq<Byte>) returns (n: int, parts: seq<Part>)
      requires 6 <= |range| && 0 <= contentLength <= LLONG_MAX
      ensures match Ranges(range, contentLength, DECOY_MAX_RANGES)
              case Refused => n == -1
              case Whole => n == 0
              case Parts(ps) => n == |ps| && parts == ps && Servable(ps, contentLength, DECOY_MAX_RANGES)
    {
      var starts, ends := new int[DECOY_MAX_RANGES], new int[DECOY_MAX_RANGES];
      n := ParseRanges(range, contentLength, starts, ends, DECOY_MAX_RANGES);
      RangesServable(range, contentLength, DECOY_MAX_RANGES);
      parts := if n > 0 then seq(n, k requires 0 <= k < n reads starts, ends => Part(starts[k], ends[k])) else [];
    }

    /**
      The body handed over is the whole one. What goes out is the whole body, an error page, or exactly the
      ranges asked for, and Content-Length is the length of what goes out (or, for HEAD, would have).
      */
    method FilterRange(asking: Asking, allow: bool, counter: nat) returns (next: nat)
      requires Valid() && (contentLength != -1 ==> contentLength == blen <= LLONG_MAX) && counter < ULONG_COUNT
      modifies this, body
      ensures Valid() && headerOnly == old(headerOnly) && next < ULONG_COUNT
      ensures next == if old(Applies(asking, allow)) && old(Wanted(asking)).Parts? && |old(Wanted(asking)).parts| > 1
                      then (counter + 1) % ULONG_COUNT else counter
      ensures !old(Applies(asking, allow)) ==> unchanged(this) && unchanged(old(body))
      ensures old(Applies(asking, allow)) ==>
                match old(Wanted(asking))
                case Whole => list == Offered(old(list))
                case Refused =>
                  && contentType == Some(Text("text/html")) && lastModified == 0 && keepAlive == asking.keepAlive
                  && list == Cleared(Unranged(old(list), old(blen)))
                case Parts(parts) =>
                  && 0 < |parts| && 0 <= parts[0].start < parts[0].end
                  && list == (if |parts| == 1 then Ranged(old(list), parts[0], old(blen)) else old(list))
                  && contentType == (if |parts| == 1 then old(contentType) else Some(MultipartType(Boundary(next))))
      ensures old(Applies(asking, allow)) ==>
                match old(Wanted(asking))
                case Whole => unchanged(this`body, this`blen, this`contentLength, this`status, this`reason)
                    && unchanged(old(body))
                case Refused =>
                  && status == 416 && reason == ReasonFor(416)
                  && Sent() == ErrorPage(416) && contentLength == |ErrorPage(416)|
                case Parts(parts) =>
                  && Servable(parts, old(blen), DECOY_MAX_RANGES)
                  && status == 206 && reason == PARTIAL && keepAlive == old(keepAlive)
                  && contentLength == |Payload(Boundary(next), old(Kind()), parts, old(Sent()))|
                  && Sent() == if headerOnly then [] else Payload(Boundary(next), old(Kind()), parts, old(Sent()))
    {
      hide Ranges, Multipart, Boundary, ErrorPage, ReasonFor, Cleared;
      next := counter;
      if asking.version < 1000 || status != 200 || contentLength == -1 || !allow {
        return;
      }
      if !ByteRange(asking.range) {
        Offer();
        return;
      }
      var same := CheckUnchanged(asking);
      if !same {
        Offer();
        return;
      }
      var n, parts := Parse(asking.range.value);
      if n == 0 {
        Offer();
      } else if n < 0 {
        Refuse(asking.keepAlive);
      } else if n == 1 {
        ServeOne(parts[0]);
      } else {
        next := (counter + 1) % ULONG_COUNT;
        ServeMany(parts, Boundary(next));
      }
    }
  }
}
