/**
  parse_ranges of core/tincd/src/decoy.c: the text of a Range header against a body of `len` bytes, as
  section 14.1.2 of RFC 9110 writes it. The reading position is an index into the text; reading at its
  end gives the NUL that ends a C string.
  */
module ByteRanges {
  import opened Wrappers
  import opened Bits

  const SPACE: Byte := 32
  const COMMA: Byte := 44
  const DASH: Byte := 45

  const LLONG_MAX := 0x7fff_ffff_ffff_ffff
  type LongLong = x: int | -LLONG_MAX - 1 <= x <= LLONG_MAX

  /** What a number may have reached before one more digit is taken. */
  const BEFORE_DIGIT := (LLONG_MAX - 9) / 10

  /** One range as the client wrote it. */
  datatype Spec = Between(first: nat, last: nat) | From(first: nat) | Suffix(count: nat)

  /** One range as it is served: the positions from `start` up to, not including, `end`. */
  datatype Part = Part(start: int, end: int) {
    predicate Empty() { end <= start }
    function Length(): int { end - start }
  }

  /** -1, 0 and a positive count of parse_ranges. */
  datatype Answer = Refused | Whole | Parts(parts: seq<Part>)

  function At(text: seq<Byte>, i: nat): Byte {
    if i < |text| then text[i] else 0
  }

  predicate Digit(c: Byte) {
    48 <= c <= 57
  }

  // ---------- Reading one range ----------

  function SkipSpaces(text: seq<Byte>, i: nat): (j: nat)
    requires i <= |text|
    ensures i <= j <= |text|
    ensures forall x :: i <= x < j ==> text[x] == SPACE
    ensures j < |text| ==> text[j] != SPACE
    decreases |text| - i
  {
    if At(text, i) == SPACE then SkipSpaces(text, i + 1) else i
  }

  /** The number whose digits so far make `sum`, and the index after it; None when it is too large. */
  function NumberFrom(text: seq<Byte>, i: nat, sum: nat): (r: Option<(nat, nat)>)
    requires i <= |text|
    ensures r.Some? ==> i <= r.value.1 <= |text|
    decreases |text| - i
  {
    if !Digit(At(text, i)) then Some((sum, i))
    else if sum > BEFORE_DIGIT then None
    else NumberFrom(text, i + 1, sum * 10 + (text[i] - 48))
  }

  /** A number that ends the range, with the spaces after it. */
  function LastNumber(text: seq<Byte>, i: nat): (r: Option<(nat, nat)>)
    requires i <= |text|
    ensures r.Some? ==> i <= r.value.1 <= |text|
  {
    if !Digit(At(text, i)) then None
    else
      match NumberFrom(text, i, 0)
      case None => None
      case Some((n, j)) =>
        var k := SkipSpaces(text, j);
        if At(text, k) != COMMA && At(text, k) != 0 then None else Some((n, k))
  }

  /** What follows the first position: "-" and perhaps the last one. */
  function AfterFirst(text: seq<Byte>, i: nat, first: nat): (r: Option<(Spec, nat)>)
    requires i <= |text|
    ensures r.Some? ==> i <= r.value.1 <= |text|
  {
    var j := SkipSpaces(text, i);
    if At(text, j) != DASH then None
    else
      var k := SkipSpaces(text, j + 1);
      if At(text, k) == COMMA || At(text, k) == 0 then Some((From(first), k))
      else
        match LastNumber(text, k)
        case None => None
        case Some((last, m)) => Some((Between(first, last), m))
  }

  function SpecAt(text: seq<Byte>, i: nat): (r: Option<(Spec, nat)>)
    requires i <= |text|
    ensures r.Some? ==> i <= r.value.1 <= |text|
  {
    var j := SkipSpaces(text, i);
    if At(text, j) == DASH then
      match LastNumber(text, j + 1)
      case None => None
      case Some((count, k)) => Some((Suffix(count), k))
    else if !Digit(At(text, j)) then None
    else
      match NumberFrom(text, j, 0)
      case None => None
      case Some((first, k)) => AfterFirst(text, k, first)
  }

  // ---------- What a range selects ----------

  function Resolve(spec: Spec, len: nat): Part {
    match spec
    case From(first) => Part(first, len)
    case Between(first, last) => Part(first, if last >= len then len else last + 1)
    case Suffix(count) => Part(if count < len then len - count else 0, len)
  }

  /** Section 14.1.2 of RFC 9110: the position `p` of a body of `len` bytes is asked for. */
  predicate Selects(spec: Spec, len: nat, p: int) {
    0 <= p < len &&
    match spec
    case From(first) => first <= p
    case Between(first, last) => first <= p <= last
    case Suffix(count) => len - p <= count
  }

  /** The code's start and end bound exactly the positions the range selects. */
  lemma ResolveSelects(spec: Spec, len: nat)
    ensures var part := Resolve(spec, len);
            && 0 <= part.start && part.end <= len
            && (forall p: int :: part.start <= p < part.end <==> Selects(spec, len, p))
            && (part.Empty() <==> forall p: int :: !Selects(spec, len, p))
  {
    var part := Resolve(spec, len);
    assert !part.Empty() ==> Selects(spec, len, part.start);
  }

  // ---------- The ranges of a text ----------

  function Total(parts: seq<Part>): int {
    if parts == [] then 0 else Total(parts[..|parts| - 1]) + parts[|parts| - 1].Length()
  }

  lemma TotalAdded(got: seq<Part>, part: Part)
    ensures Total([]) == 0 && Total(got + [part]) == Total(got) + part.Length()
  {
    assert (got + [part])[..|got|] == got;
  }

  function Close(got: seq<Part>, len: nat): Answer {
    if got == [] then Refused else if Total(got) > len then Whole else Parts(got)
  }

  function Added(got: seq<Part>, part: Part): seq<Part> {
    if part.Empty() then got else got + [part]
  }

  /** The ranges from `i` on, after those in `got`. */
  function RangesFrom(text: seq<Byte>, i: nat, len: nat, max: nat, got: seq<Part>): (r: Answer)
    requires i <= |text|
    decreases |text| - i
  {
    match SpecAt(text, i)
    case None => Refused
    case Some((spec, j)) =>
      var part := Resolve(spec, len);
      if !part.Empty() && |got| == max then Whole
      else if part.Empty() && part.start == 0 then Whole
      else
        var more := Added(got, part);
        if At(text, j) == COMMA then RangesFrom(text, j + 1, len, max, more) else Close(more, len)
  }

  lemma RangesStep(text: seq<Byte>, i: nat, len: nat, max: nat, got: seq<Part>)
    requires i <= |text|
    ensures SpecAt(text, i).None? ==> RangesFrom(text, i, len, max, got).Refused?
    ensures SpecAt(text, i).Some? ==>
              var (spec, j) := SpecAt(text, i).value;
              var part := Resolve(spec, len);
              RangesFrom(text, i, len, max, got) ==
              if (if part.Empty() then part.start == 0 else |got| == max) then Whole
              else if At(text, j) == COMMA then RangesFrom(text, j + 1, len, max, Added(got, part))
              else Close(Added(got, part), len)
  {
  }

  /** Everything after "bytes=". */
  function Ranges(text: seq<Byte>, len: nat, max: nat): Answer
    requires 6 <= |text|
  {
    RangesFrom(text, 6, len, max, [])
  }

  // ---------- The code ----------

  method Blank(text: seq<Byte>, i: nat) returns (j: nat)
    requires i <= |text|
    ensures j == SkipSpaces(text, i)
  {
    j := i;
    while At(text, j) == SPACE
      invariant i <= j <= |text| && SkipSpaces(text, i) == SkipSpaces(text, j)
      decreases |text| - j
    {
      j := j + 1;
    }
  }

  /** The sum is a long long throughout: the test before each digit keeps it from overflowing. */
  method ReadNumber(text: seq<Byte>, i: nat) returns (ok: bool, sum: LongLong, j: nat)
    requires i <= |text|
    ensures 0 <= sum && i <= j <= |text|
    ensures NumberFrom(text, i, 0) == if ok then Some((sum, j)) else None
  {
    sum, j := 0, i;
    while Digit(At(text, j))
      invariant i <= j <= |text| && 0 <= sum
      invariant NumberFrom(text, i, 0) == NumberFrom(text, j, sum)
      decreases |text| - j
    {
      if sum > BEFORE_DIGIT {
        return false, 0, j;
      }
      sum := sum * 10 + (text[j] - 48);
      j := j + 1;
    }
    return true, sum, j;
  }

  method ReadLast(text: seq<Byte>, i: nat) returns (ok: bool, last: LongLong, j: nat)
    requires i <= |text|
    ensures 0 <= last && i <= j <= |text|
    ensures LastNumber(text, i) == if ok then Some((last, j)) else None
  {
    if !Digit(At(text, i)) {
      return false, 0, i;
    }
    ok, last, j := ReadNumber(text, i);
    if !ok {
      return;
    }
    j := Blank(text, j);
    ok := At(text, j) == COMMA || At(text, j) == 0;
  }

  /** One turn of the loop up to `found`: the bounds are long longs too. */
  method ReadSpec(text: seq<Byte>, i: nat, len: LongLong) returns (ok: bool, start: LongLong, end: LongLong, j: nat)
    requires i <= |text| && 0 <= len
    ensures i <= j <= |text|
    ensures ok == SpecAt(text, i).Some?
    ensures ok ==> SpecAt(text, i).value.1 == j && Resolve(SpecAt(text, i).value.0, len) == Part(start, end)
  {
    hide SkipSpaces, NumberFrom, LastNumber;
    start, end := 0, 0;
    var suffix := false;
    j := Blank(text, i);
    if At(text, j) != DASH {
      if !Digit(At(text, j)) {
        return false, 0, 0, j;
      }
      ok, start, j := ReadNumber(text, j);
      if !ok {
        return;
      }
      j := Blank(text, j);
      if At(text, j) != DASH {
        return false, 0, 0, j;
      }
      j := Blank(text, j + 1);
      if At(text, j) == COMMA || At(text, j) == 0 {
        return true, start, len, j;
      }
    } else {
      suffix := true;
      j := j + 1;
    }
    ok, end, j := ReadLast(text, j);
    if !ok {
      return;
    }
    if suffix {
      start := if end < len then len - end else 0;
      end := len - 1;
    }
    if end >= len {
      end := len;
    } else {
      end := end + 1;
    }
  }

  method ParseRanges(text: seq<Byte>, len: LongLong, starts: array<int>, ends: array<int>, max: nat) returns (n: int)
    requires 6 <= |text| && 0 <= len
    requires starts != ends && starts.Length >= max && ends.Length >= max
    modifies starts, ends
    ensures match Ranges(text, len, max)
            case Refused => n == -1
            case Whole => n == 0
            case Parts(parts) =>
              && n == |parts| && 0 < n <= max
              && forall k :: 0 <= k < n ==> parts[k] == Part(starts[k], ends[k])
  {
    TotalAdded([], Part(0, 0));
    hide SpecAt, Resolve, Total, RangesFrom;
    var p, size := 6, 0;
    ghost var got: seq<Part> := [];
    n := 0;
    while true
      invariant p <= |text| && 0 <= n <= max && |got| == n
      invariant Ranges(text, len, max) == RangesFrom(text, p, len, max, got)
      invariant forall k :: 0 <= k < n ==> got[k] == Part(starts[k], ends[k])
      invariant size == Total(got)
      decreases |text| - p
    {
      var ok, start, end, j := ReadSpec(text, p, len);
      RangesStep(text, p, len, max, got);
      if !ok {
        return -1;
      }
      if start < end {
        if n == max {
          return 0;
        }
        starts[n] := start;
        ends[n] := end;
        n := n + 1;
        size := size + (end - start);
        TotalAdded(got, Part(start, end));
      } else if start == 0 {
        return 0;
      }
      got := Added(got, Part(start, end));
      if At(text, j) != COMMA {
        assert Ranges(text, len, max) == Close(got, len);
        break;
      }
      p := j + 1;
    }
    if n == 0 {
      return -1;
    }
    if size > len {
      return 0;
    }
  }

  /** What the caller relies on: proper slices of the body, few enough, together no longer than it. */
  predicate Servable(parts: seq<Part>, len: nat, max: nat) {
    && 0 < |parts| <= max
    && Total(parts) <= len
    && Proper(parts, len)
  }

  predicate Proper(parts: seq<Part>, len: nat) {
    forall k :: 0 <= k < |parts| ==> 0 <= parts[k].start < parts[k].end <= len
  }

  lemma {:induction false} ServableFrom(text: seq<Byte>, i: nat, len: nat, max: nat, got: seq<Part>)
    requires i <= |text| && |got| <= max && Proper(got, len)
    ensures var r := RangesFrom(text, i, len, max, got); r.Parts? ==> Servable(r.parts, len, max)
    decreases |text| - i
  {
    hide SpecAt, Resolve, Selects;
    if SpecAt(text, i).Some? {
      var (spec, j) := SpecAt(text, i).value;
      var part := Resolve(spec, len);
      ResolveSelects(spec, len);
      if part.Empty() {
        if part.start != 0 && At(text, j) == COMMA {
          ServableFrom(text, j + 1, len, max, got);
        }
      } else if |got| < max && At(text, j) == COMMA {
        ServableFrom(text, j + 1, len, max, got + [part]);
      }
    }
  }

  lemma RangesServable(text: seq<Byte>, len: nat, max: nat)
    requires 6 <= |text|
    ensures var r := Ranges(text, len, max); r.Parts? ==> Servable(r.parts, len, max)
  {
    ServableFrom(text, 6, len, max, []);
  }

  // ---------- The grammar, independently of any reading position ----------

  predicate Blanks(s: seq<Byte>) {
    forall x :: 0 <= x < |s| ==> s[x] == SPACE
  }

  predicate Digits(s: seq<Byte>) {
    forall x :: 0 <= x < |s| ==> Digit(s[x])
  }

  /** The value of a string of digits. */
  function Value(s: seq<Byte>): (v: nat)
    requires Digits(s)
  {
    if s == [] then 0 else Value(s[..|s| - 1]) * 10 + (s[|s| - 1] - 48)
  }

  /** The largest number the code reads, eight less than the largest long long. */
  const LARGEST := 9223372036854775799

  predicate Numeral(s: seq<Byte>, n: nat) {
    s != [] && Digits(s) && Value(s) == n && n <= LARGEST
  }

  /** The pieces of a written range: spaces, first, spaces, "-", spaces, last, spaces. */
  datatype Layout = Layout(
    lead: seq<Byte>,
    first: seq<Byte>,
    gap: seq<Byte>,
    open: seq<Byte>,
    last: seq<Byte>,
    tail: seq<Byte>)
  {
    function Text(): seq<Byte> { lead + (first + (gap + ([DASH] + (open + (last + tail))))) }

    predicate Spaced() { Blanks(lead) && Blanks(gap) && Blanks(open) && Blanks(tail) }

    predicate Says(spec: Spec) {
      && Spaced()
      && match spec
         case Between(a, b) => Numeral(first, a) && Numeral(last, b)
         case From(a) => Numeral(first, a) && last == [] && tail == []
         case Suffix(n) => first == [] && gap == [] && open == [] && Numeral(last, n)
    }
  }

  ghost predicate Written(s: seq<Byte>, spec: Spec) {
    exists l: Layout :: l.Text() == s && l.Says(spec)
  }

  lemma {:induction false} ValueGrows(s: seq<Byte>, t: seq<Byte>)
    requires Digits(s + t)
    ensures Digits(s) && Value(s) <= Value(s + t)
    decreases |t|
  {
    forall x | 0 <= x < |s| ensures Digit(s[x]) { assert s[x] == (s + t)[x]; }
    if t == [] {
      assert s + t == s;
    } else {
      var u := t[..|t| - 1];
      assert (s + t)[..|s + t| - 1] == s + u;
      ValueGrows(s, u);
    }
  }

  lemma ValueStep(text: seq<Byte>, i: nat, k: nat, j: nat)
    requires i <= k < j <= |text| && Digits(text[i..j])
    ensures Digits(text[i..k]) && Digits(text[i..k + 1]) && Digit(text[k])
    ensures Value(text[i..k + 1]) == Value(text[i..k]) * 10 + (text[k] - 48)
    ensures Value(text[i..k + 1]) <= Value(text[i..j])
  {
    var s := text[i..k + 1];
    assert s + text[k + 1..j] == text[i..j];
    ValueGrows(s, text[k + 1..j]);
    assert s[..|s| - 1] == text[i..k] && s[|s| - 1] == text[k];
  }

  /** Digit by digit: the test before each digit refuses exactly the numbers above LARGEST. */
  lemma {:induction false} NumberIs(text: seq<Byte>, i: nat, k: nat, j: nat)
    requires i <= k <= j <= |text| && Digits(text[i..j]) && !Digit(At(text, j))
    requires Digits(text[i..k]) && (k == i || Value(text[i..k]) <= LARGEST)
    ensures NumberFrom(text, k, Value(text[i..k])) ==
            if k == j || Value(text[i..j]) <= LARGEST then Some((Value(text[i..j]), j)) else None
    decreases j - k
  {
    hide Value;
    if k < j {
      ValueStep(text, i, k, j);
      if Value(text[i..k]) <= BEFORE_DIGIT {
        NumberIs(text, i, k + 1, j);
      }
    }
  }

  /** Where the digits from `i` on end. */
  ghost function DigitsEnd(text: seq<Byte>, i: nat): (j: nat)
    requires i <= |text|
    ensures i <= j <= |text| && Digits(text[i..j]) && !Digit(At(text, j))
    decreases |text| - i
  {
    if Digit(At(text, i)) then
      var j := DigitsEnd(text, i + 1);
      assert text[i..j] == [text[i]] + text[i + 1..j];
      j
    else i
  }

  lemma NumberSound(text: seq<Byte>, i: nat)
    requires i <= |text| && Digit(At(text, i))
    ensures var r := NumberFrom(text, i, 0);
            r.Some? ==> i < r.value.1 && Numeral(text[i..r.value.1], r.value.0) && !Digit(At(text, r.value.1))
  {
    NumberIs(text, i, i, DigitsEnd(text, i));
  }

  lemma NumberComplete(text: seq<Byte>, i: nat, j: nat, n: nat)
    requires i <= j <= |text| && Numeral(text[i..j], n) && !Digit(At(text, j))
    ensures Digit(At(text, i)) && NumberFrom(text, i, 0) == Some((n, j))
  {
    assert Digit(text[i..j][0]);
    NumberIs(text, i, i, j);
  }

  lemma SkipComplete(text: seq<Byte>, i: nat, j: nat)
    requires i <= j <= |text| && Blanks(text[i..j]) && At(text, j) != SPACE
    ensures SkipSpaces(text, i) == j
  {
    forall x | i <= x < j ensures text[x] == SPACE { assert text[x] == text[i..j][x - i]; }
  }

  lemma Cut(text: seq<Byte>, i: nat, j: nat, a: seq<Byte>, b: seq<Byte>) returns (m: nat)
    requires i <= j <= |text| && text[i..j] == a + b
    ensures i <= m == i + |a| <= j && text[i..m] == a && text[m..j] == b
  {
    m := i + |a|;
    assert |text[i..j]| == |a| + |b|;
    assert text[i..m] == text[i..j][..|a|] && text[m..j] == text[i..j][|a|..];
  }

  predicate Ended(text: seq<Byte>, j: nat) {
    At(text, j) == COMMA || At(text, j) == 0
  }

  lemma LastSound(text: seq<Byte>, i: nat) returns (j: nat)
    requires i <= |text| && LastNumber(text, i).Some?
    ensures var (n, k) := LastNumber(text, i).value;
            i < j <= k && Numeral(text[i..j], n) && Blanks(text[j..k]) && Ended(text, k)
  {
    NumberSound(text, i);
    j := NumberFrom(text, i, 0).value.1;
  }

  lemma LastComplete(text: seq<Byte>, i: nat, k: nat, last: seq<Byte>, tail: seq<Byte>, n: nat)
    requires i <= k <= |text| && text[i..k] == last + tail && Numeral(last, n) && Blanks(tail) && Ended(text, k)
    ensures Digit(At(text, i)) && LastNumber(text, i) == Some((n, k))
  {
    var j := Cut(text, i, k, last, tail);
    assert j < k ==> text[j..k][0] == SPACE;
    NumberComplete(text, i, j, n);
    SkipComplete(text, j, k);
  }

  ghost function Sliced(text: seq<Byte>, i: nat, a: nat, b: nat, c: nat, d: nat, m: nat, k: nat): Layout
    requires i <= a <= b <= c < d <= m <= k <= |text|
  {
    Layout(text[i..a], text[a..b], text[b..c], text[c + 1..d], text[d..m], text[m..k])
  }

  lemma LayoutOf(text: seq<Byte>, i: nat, a: nat, b: nat, c: nat, d: nat, m: nat, k: nat, spec: Spec)
    requires i <= a <= b <= c < d <= m <= k <= |text| && text[c] == DASH
    requires Sliced(text, i, a, b, c, d, m, k).Says(spec)
    ensures Written(text[i..k], spec)
  {
    hide Layout.Says;
    var l := Sliced(text, i, a, b, c, d, m, k);
    assert l.last + l.tail == text[d..k];
    assert l.open + text[d..k] == text[c + 1..k];
    assert [DASH] + text[c + 1..k] == text[c..k];
    assert l.gap + text[c..k] == text[b..k];
    assert l.first + text[b..k] == text[a..k];
    assert l.lead + text[a..k] == text[i..k];
    assert l.Text() == text[i..k];
  }

  /** What is read is written there. */
  lemma SpecSound(text: seq<Byte>, i: nat)
    requires i <= |text| && SpecAt(text, i).Some?
    ensures var (spec, j) := SpecAt(text, i).value; Written(text[i..j], spec) && Ended(text, j)
  {
    hide NumberFrom, SkipSpaces, LastNumber, Value, Layout.Text;
    var (spec, k) := SpecAt(text, i).value;
    var a := SkipSpaces(text, i);
    if At(text, a) == DASH {
      var m := LastSound(text, a + 1);
      LayoutOf(text, i, a, a, a, a + 1, m, k, spec);
    } else {
      NumberSound(text, a);
      var b := NumberFrom(text, a, 0).value.1;
      var c := SkipSpaces(text, b);
      var d := SkipSpaces(text, c + 1);
      if Ended(text, d) {
        LayoutOf(text, i, a, b, c, d, d, d, spec);
      } else {
        var m := LastSound(text, d);
        LayoutOf(text, i, a, b, c, d, m, k, spec);
      }
    }
  }

  lemma AfterFirstComplete(text: seq<Byte>, i: nat, k: nat, l: Layout, spec: Spec)
    requires i <= k <= |text| && Ended(text, k) && l.Says(spec) && !spec.Suffix?
    requires text[i..k] == l.gap + ([DASH] + (l.open + (l.last + l.tail)))
    ensures !Digit(At(text, i)) && AfterFirst(text, i, spec.first) == Some((spec, k))
  {
    hide NumberFrom, SkipSpaces, LastNumber, Value;
    var a := Cut(text, i, k, l.gap, [DASH] + (l.open + (l.last + l.tail)));
    var b := Cut(text, a, k, [DASH], l.open + (l.last + l.tail));
    var c := Cut(text, b, k, l.open, l.last + l.tail);
    assert text[a..b][0] == DASH;
    assert i < a ==> text[i..a][0] == SPACE;
    SkipComplete(text, i, a);
    if spec.Between? {
      LastComplete(text, c, k, l.last, l.tail, spec.last);
    } else {
      assert l.last + l.tail == [];
    }
    SkipComplete(text, b, c);
  }

  /** What is written is read. */
  lemma SpecComplete(text: seq<Byte>, i: nat, k: nat, l: Layout, spec: Spec)
    requires i <= k <= |text| && Ended(text, k) && l.Says(spec) && text[i..k] == l.Text()
    ensures SpecAt(text, i) == Some((spec, k))
  {
    hide NumberFrom, SkipSpaces, LastNumber, AfterFirst, Value;
    var rest := l.gap + ([DASH] + (l.open + (l.last + l.tail)));
    var a := Cut(text, i, k, l.lead, l.first + rest);
    var b := Cut(text, a, k, l.first, rest);
    if spec.Suffix? {
      assert rest == [DASH] + (l.last + l.tail);
      var c := Cut(text, b, k, [DASH], l.last + l.tail);
      assert text[b..c][0] == DASH;
      SkipComplete(text, i, a);
      LastComplete(text, c, k, l.last, l.tail, spec.count);
    } else {
      AfterFirstComplete(text, b, k, l, spec);
      NumberComplete(text, a, b, spec.first);
      SkipComplete(text, i, a);
    }
  }

  /** The reader accepts exactly the written ranges. */
  lemma Recognises(text: seq<Byte>, i: nat, j: nat, spec: Spec)
    requires i <= j <= |text| && Ended(text, j)
    ensures SpecAt(text, i) == Some((spec, j)) <==> Written(text[i..j], spec)
  {
    if SpecAt(text, i) == Some((spec, j)) {
      SpecSound(text, i);
    }
    if Written(text[i..j], spec) {
      var l: Layout :| l.Text() == text[i..j] && l.Says(spec);
      SpecComplete(text, i, j, l, spec);
    }
  }

  // ---------- The answer, from the list of ranges as a whole ----------

  ghost function CommaFrom(text: seq<Byte>, i: nat): (j: nat)
    requires i <= |text|
    ensures i <= j <= |text| && (j < |text| ==> text[j] == COMMA)
    ensures forall x :: i <= x < j ==> text[x] != COMMA
    decreases |text| - i
  {
    if i == |text| || text[i] == COMMA then i else CommaFrom(text, i + 1)
  }

  /** The text between the commas. */
  ghost function Pieces(text: seq<Byte>, i: nat): (r: seq<seq<Byte>>)
    requires i <= |text|
    ensures r != []
    decreases |text| - i
  {
    var j := CommaFrom(text, i);
    [text[i..j]] + if j < |text| then Pieces(text, j + 1) else []
  }

  /** The satisfiable ranges, in order. */
  function Served(specs: seq<Spec>, len: nat): (r: seq<Part>)
    ensures |r| <= |specs|
  {
    if specs == [] then []
    else
      var part := Resolve(specs[|specs| - 1], len);
      Added(Served(specs[..|specs| - 1], len), part)
  }

  predicate AsksForStart(spec: Spec) {
    spec.Suffix? || spec.first == 0
  }

  /** Reading stops and the whole body is served: too many ranges, or the start of an empty body. */
  predicate Stops(specs: seq<Spec>, len: nat, max: nat) {
    |Served(specs, len)| > max || (len == 0 && exists x :: 0 <= x < |specs| && AsksForStart(specs[x]))
  }

  /** `specs` are the ranges before the first malformed one, if any; `complete` says that there is none. */
  function Verdict(specs: seq<Spec>, complete: bool, len: nat, max: nat): Answer {
    if Stops(specs, len, max) then Whole
    else if !complete || Served(specs, len) == [] then Refused
    else if Total(Served(specs, len)) > len then Whole
    else Parts(Served(specs, len))
  }

  /** `specs` are what the first pieces say, and no range is written in the piece after them. */
  ghost predicate Means(pieces: seq<seq<Byte>>, specs: seq<Spec>) {
    && |specs| <= |pieces|
    && (forall x :: 0 <= x < |specs| ==> Written(pieces[x], specs[x]))
    && (|specs| < |pieces| ==> forall spec :: !Written(pieces[|specs|], spec))
  }

  lemma NoComma(s: seq<Byte>, spec: Spec)
    requires Written(s, spec)
    ensures forall x :: 0 <= x < |s| ==> s[x] != COMMA
  {
    hide Value;
    var l: Layout :| l.Text() == s && l.Says(spec);
    var a := l.last + l.tail;
    assert forall x :: 0 <= x < |a| ==> a[x] != COMMA;
    var b := [DASH] + (l.open + a);
    assert forall x :: 0 <= x < |b| ==> b[x] != COMMA;
    var c := l.first + (l.gap + b);
    assert forall x :: 0 <= x < |c| ==> c[x] != COMMA;
    assert s == l.lead + c;
  }

  /** A range that is read ends at the next comma. */
  lemma ReadsPiece(text: seq<Byte>, i: nat)
    requires i <= |text| && NulFree(text)
    ensures SpecAt(text, i).Some? ==> SpecAt(text, i).value.1 == CommaFrom(text, i)
  {
    hide SpecAt;
    if SpecAt(text, i).Some? {
      var (spec, j) := SpecAt(text, i).value;
      SpecSound(text, i);
      NoComma(text[i..j], spec);
      forall x | i <= x < j ensures text[x] != COMMA { assert text[x] == text[i..j][x - i]; }
    }
  }

  lemma {:induction false} StopsForGood(specs: seq<Spec>, m: nat, len: nat, max: nat)
    requires m <= |specs|
    ensures |Served(specs[..m], len)| <= |Served(specs, len)|
    ensures Stops(specs[..m], len, max) ==> Stops(specs, len, max)
    decreases |specs|
  {
    if m == |specs| {
      assert specs[..m] == specs;
    } else {
      var less := specs[..|specs| - 1];
      StopsForGood(less, m, len, max);
      assert less[..m] == specs[..m];
    }
  }

  lemma ServedNext(specs: seq<Spec>, m: nat, len: nat, max: nat)
    requires m < |specs| && !Stops(specs[..m], len, max)
    ensures var part := Resolve(specs[m], len);
            && Served(specs[..m + 1], len) == Added(Served(specs[..m], len), part)
            && (Stops(specs[..m + 1], len, max) <==>
                (!part.Empty() && |Served(specs[..m], len)| == max) || (part.Empty() && part.start == 0))
  {
    var next := specs[..m + 1];
    assert next[..m] == specs[..m] && next[m] == specs[m];
    if len == 0 {
      assert AsksForStart(specs[m]) ==> AsksForStart(next[m]);
      forall x | 0 <= x < m ensures !AsksForStart(next[x]) { assert next[x] == specs[..m][x]; }
    }
  }

  /** The next piece is read as the list says, and the reader then stands before the piece after it. */
  lemma PieceRead(text: seq<Byte>, i: nat, specs: seq<Spec>, m: nat, pieces: seq<seq<Byte>>)
    requires i <= |text| && NulFree(text) && m < |pieces| && Pieces(text, i) == pieces[m..]
    requires m <= |specs| && Means(pieces, specs)
    ensures |specs| <= |pieces|
    ensures var j := CommaFrom(text, i);
            && SpecAt(text, i) == (if m == |specs| then None else Some((specs[m], j)))
            && (j < |text| <==> At(text, j) == COMMA)
            && (if j < |text| then m + 1 < |pieces| && Pieces(text, j + 1) == pieces[m + 1..] else m + 1 == |pieces|)
  {
    hide SpecAt, Written;
    var j := CommaFrom(text, i);
    assert pieces[m] == pieces[m..][0] == text[i..j];
    assert pieces[m..][1..] == pieces[m + 1..];
    ReadsPiece(text, i);
    if m == |specs| {
      if SpecAt(text, i).Some? {
        SpecSound(text, i);
      }
    } else {
      Recognises(text, i, j, specs[m]);
    }
  }

  lemma {:induction false} RangesFromExactly(text: seq<Byte>, i: nat, len: nat, max: nat, specs: seq<Spec>, m: nat,
                                             pieces: seq<seq<Byte>>)
    requires i <= |text| && NulFree(text) && m < |pieces| && Pieces(text, i) == pieces[m..]
    requires m <= |specs| && Means(pieces, specs) && !Stops(specs[..m], len, max)
    ensures RangesFrom(text, i, len, max, Served(specs[..m], len)) == Verdict(specs, |specs| == |pieces|, len, max)
    decreases |text| - i
  {
    hide SpecAt, Resolve, Means, Stops, Served, Total, RangesFrom, At, Pieces, CommaFrom, NulFree;
    var j := CommaFrom(text, i);
    RangesStep(text, i, len, max, Served(specs[..m], len));
    PieceRead(text, i, specs, m, pieces);
    if m == |specs| {
      assert specs[..m] == specs;
    } else {
      ServedNext(specs, m, len, max);
      StopsForGood(specs, m + 1, len, max);
      if !Stops(specs[..m + 1], len, max) {
        if j < |text| {
          RangesFromExactly(text, j + 1, len, max, specs, m + 1, pieces);
        } else {
          assert specs[..m + 1] == specs;
        }
      }
    }
  }

  /**
    For every text: malformed text, unsatisfiable ranges, too many ranges and ranges longer together than
    the body are told apart as the list of ranges as a whole says, and what is served is the satisfiable
    ranges in the order they were written.
    */
  lemma RangesExactly(text: seq<Byte>, len: nat, max: nat, specs: seq<Spec>)
    requires 6 <= |text| && NulFree(text) && Means(Pieces(text, 6), specs)
    ensures Ranges(text, len, max) == Verdict(specs, |specs| == |Pieces(text, 6)|, len, max)
  {
    var pieces := Pieces(text, 6);
    assert pieces[0..] == pieces;
    assert specs[..0] == [];
    RangesFromExactly(text, 6, len, max, specs, 0, pieces);
  }

  /** Every list of pieces has such a reading, so RangesExactly speaks of every text. */
  lemma {:induction false} SomeReading(pieces: seq<seq<Byte>>, m: nat, specs: seq<Spec>) returns (all: seq<Spec>)
    requires m == |specs| <= |pieces| && forall x :: 0 <= x < m ==> Written(pieces[x], specs[x])
    ensures Means(pieces, all)
    decreases |pieces| - m
  {
    if m < |pieces| && exists spec :: Written(pieces[m], spec) {
      var spec :| Written(pieces[m], spec);
      all := SomeReading(pieces, m + 1, specs + [spec]);
    } else {
      all := specs;
    }
  }
}
