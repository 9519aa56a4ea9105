/**
  normalise_uri of core/tincd/src/decoy.c: percent-decoding, merging of slashes and resolution of "."
  and "..", all in one pass over the text and in place in the output buffer.
  */
module UriNormalise {
  import opened Wrappers
  import opened Bits

  const SLASH: Byte := 47
  const DOT: Byte := 46
  const PERCENT: Byte := 37

  /** hexval */
  function HexVal(c: Byte): Option<nat> {
    if 48 <= c <= 57 then Some(c - 48)
    else if 97 <= c <= 102 then Some(c - 87)
    else if 65 <= c <= 70 then Some(c - 55)
    else None
  }

  /** The character at `i`, decoded, and the index after it; None for a bad escape or an escaped NUL. */
  function CharAt(text: seq<Byte>, i: nat): (r: Option<(Byte, nat)>)
    requires i < |text|
    ensures r.Some? ==> i < r.value.1 <= |text|
  {
    if text[i] != PERCENT then Some((text[i], i + 1))
    else if |text| - i < 3 then None
    else
      match (HexVal(text[i + 1]), HexVal(text[i + 2]))
      case (Some(h), Some(l)) => if h * 16 + l == 0 then None else Some((h * 16 + l, i + 3))
      case _ => None
  }

  function Decoded(text: seq<Byte>, i: nat): (r: Option<seq<Byte>>)
    requires i <= |text|
    decreases |text| - i
  {
    if i == |text| then Some([])
    else
      match CharAt(text, i)
      case None => None
      case Some((c, j)) =>
        match Decoded(text, j)
        case None => None
        case Some(rest) => Some([c] + rest)
  }

  // ---------- Percent-encoding ----------

  const LOWER_DIGITS := "0123456789abcdef"
  const UPPER_DIGITS := "0123456789ABCDEF"

  /** A hexadecimal digit, in lower or upper case. */
  function Digit(v: nat, upper: bool): Byte
    requires v < 16
  {
    Text(if upper then UPPER_DIGITS else LOWER_DIGITS)[v]
  }

  predicate IsDigit(c: Byte) {
    c in Text(LOWER_DIGITS) || c in Text(UPPER_DIGITS)
  }

  /** The ways to write a character: as it is, or as an escape with its digits in either case. */
  datatype Spelling = AsIs | InHex(high: bool, low: bool)

  predicate Spells(c: Byte, way: Spelling) {
    if way.AsIs? then c != PERCENT else c != 0
  }

  function Written(c: Byte, way: Spelling): seq<Byte> {
    match way
    case AsIs => [c]
    case InHex(high, low) => [PERCENT, Digit(c / 16, high), Digit(c % 16, low)]
  }

  predicate SpellsAll(path: seq<Byte>, ways: seq<Spelling>) {
    |ways| == |path| && forall i :: 0 <= i < |path| ==> Spells(path[i], ways[i])
  }

  function WrittenAll(path: seq<Byte>, ways: seq<Spelling>): seq<Byte>
    requires |ways| == |path|
  {
    if path == [] then [] else Written(path[0], ways[0]) + WrittenAll(path[1..], ways[1..])
  }

  lemma DigitValue(v: nat, upper: bool)
    requires v < 16
    ensures HexVal(Digit(v, upper)) == Some(v)
  {
    if upper {
      UpperDigit(v);
    } else {
      LowerDigit(v);
    }
  }

  lemma LowerDigit(v: nat)
    requires v < 16
    ensures Text(LOWER_DIGITS)[v] == if v < 10 then 48 + v else 87 + v
  {
    assert v < 10 ==> LOWER_DIGITS[v] == '0' + v as char;
    assert v >= 10 ==> LOWER_DIGITS[v] == 'a' + (v - 10) as char;
  }

  lemma UpperDigit(v: nat)
    requires v < 16
    ensures Text(UPPER_DIGITS)[v] == if v < 10 then 48 + v else 55 + v
  {
    assert v < 10 ==> UPPER_DIGITS[v] == '0' + v as char;
    assert v >= 10 ==> UPPER_DIGITS[v] == 'A' + (v - 10) as char;
  }

  /** hexval knows the digits and nothing else. */
  lemma ValueDigit(c: Byte)
    ensures HexVal(c).Some? ==> HexVal(c).value < 16
                                && (c == Digit(HexVal(c).value, false) || c == Digit(HexVal(c).value, true))
    ensures HexVal(c).Some? <==> IsDigit(c)
  {
    hide Text;
    if HexVal(c).Some? {
      LowerDigit(HexVal(c).value);
      UpperDigit(HexVal(c).value);
    }
    if c in Text(LOWER_DIGITS) {
      var v: nat :| v < 16 && Text(LOWER_DIGITS)[v] == c;
      DigitValue(v, false);
    }
    if c in Text(UPPER_DIGITS) {
      var v: nat :| v < 16 && Text(UPPER_DIGITS)[v] == c;
      DigitValue(v, true);
    }
  }

  /** A character is refused exactly for an escape that is cut off, has something else for a digit, or is "%00". */
  lemma RefusedExactly(text: seq<Byte>, i: nat)
    requires i < |text|
    ensures CharAt(text, i) == None
            <==> && text[i] == PERCENT
                 && (|text| - i < 3 || !IsDigit(text[i + 1]) || !IsDigit(text[i + 2])
                     || text[i + 1] == text[i + 2] == 48)
  {
    hide IsDigit;
    if text[i] == PERCENT && |text| - i >= 3 {
      ValueDigit(text[i + 1]);
      ValueDigit(text[i + 2]);
    }
  }

  lemma WrittenDecodes(text: seq<Byte>, i: nat, c: Byte, way: Spelling, rest: seq<Byte>)
    requires i <= |text| && text[i..] == Written(c, way) + rest && Spells(c, way)
    ensures i < |text| && CharAt(text, i) == Some((c, i + |Written(c, way)|))
    ensures text[i + |Written(c, way)|..] == rest
  {
    hide HexVal, Digit;
    var bs := Written(c, way);
    assert forall k :: 0 <= k < |bs| ==> text[i + k] == text[i..][k] == bs[k];
    assert text[i + |bs|..] == text[i..][|bs|..] == rest;
    if way.InHex? {
      DigitValue(c / 16, way.high);
      DigitValue(c % 16, way.low);
    }
  }

  /** However the characters of a text are written, it is decoded to them. */
  lemma {:induction false} EncodedDecodes(text: seq<Byte>, i: nat, path: seq<Byte>, ways: seq<Spelling>)
    requires i <= |text| && SpellsAll(path, ways) && text[i..] == WrittenAll(path, ways)
    ensures Decoded(text, i) == Some(path)
    decreases |path|
  {
    hide CharAt, Written, Spells;
    if path != [] {
      var rest := WrittenAll(path[1..], ways[1..]);
      WrittenDecodes(text, i, path[0], ways[0], rest);
      EncodedDecodes(text, i + |Written(path[0], ways[0])|, path[1..], ways[1..]);
      assert path == [path[0]] + path[1..];
    }
  }

  /** The way the character at `i` is written. */
  function WayAt(text: seq<Byte>, i: nat): Spelling
    requires i < |text| && CharAt(text, i).Some?
  {
    if text[i] != PERCENT then AsIs
    else InHex(text[i + 1] !in Text(LOWER_DIGITS), text[i + 2] !in Text(LOWER_DIGITS))
  }

  lemma CharWritten(text: seq<Byte>, i: nat)
    requires i < |text| && CharAt(text, i).Some?
    ensures var (c, j) := CharAt(text, i).value;
            Spells(c, WayAt(text, i)) && text[i..j] == Written(c, WayAt(text, i))
  {
    hide HexVal, Digit, Text;
    if text[i] == PERCENT {
      EitherDigit(text[i + 1]);
      EitherDigit(text[i + 2]);
      TwoDigits(HexVal(text[i + 1]).value, HexVal(text[i + 2]).value);
      assert text[i..i + 3] == [text[i], text[i + 1], text[i + 2]];
    }
  }

  lemma TwoDigits(h: nat, l: nat)
    requires h < 16 && l < 16
    ensures (h * 16 + l) / 16 == h && (h * 16 + l) % 16 == l
  {
  }

  lemma EitherDigit(c: Byte)
    requires HexVal(c).Some?
    ensures HexVal(c).value < 16 && c == Digit(HexVal(c).value, c !in Text(LOWER_DIGITS))
  {
    ValueDigit(c);
    var v := HexVal(c).value;
    if c in Text(LOWER_DIGITS) && c != Digit(v, false) {
      var w: nat :| w < 16 && Text(LOWER_DIGITS)[w] == c;
      DigitValue(w, false);
    }
  }

  /** How a text that is decoded was written. */
  lemma {:induction false} DecodedEncodes(text: seq<Byte>, i: nat) returns (ways: seq<Spelling>)
    requires i <= |text| && Decoded(text, i).Some?
    ensures SpellsAll(Decoded(text, i).value, ways) && text[i..] == WrittenAll(Decoded(text, i).value, ways)
    decreases |text| - i
  {
    hide CharAt, Written, Spells, WayAt;
    if i == |text| {
      ways := [];
    } else {
      var (c, j) := CharAt(text, i).value;
      CharWritten(text, i);
      var more := DecodedEncodes(text, j);
      ways := [WayAt(text, i)] + more;
      var path := Decoded(text, i).value;
      assert path[1..] == Decoded(text, j).value && ways[1..] == more;
      assert text[i..] == text[i..j] + text[j..];
    }
  }

  /** Decoding undoes percent-encoding and nothing else. */
  lemma DecodedExactly(text: seq<Byte>, path: seq<Byte>)
    ensures Decoded(text, 0) == Some(path) <==> exists ways :: SpellsAll(path, ways) && text == WrittenAll(path, ways)
  {
    hide Decoded, Spells, WrittenAll;
    assert text[0..] == text;
    if Decoded(text, 0) == Some(path) {
      var ways := DecodedEncodes(text, 0);
    }
    forall ways | SpellsAll(path, ways) && text == WrittenAll(path, ways)
      ensures Decoded(text, 0) == Some(path)
    {
      EncodedDecodes(text, 0, path, ways);
    }
  }

  /** Every text without NUL can be written in escapes throughout, and every text without "%" as it is. */
  lemma {:induction false} OneWay(path: seq<Byte>, way: Spelling)
    requires if way.AsIs? then PERCENT !in path else NulFree(path)
    ensures SpellsAll(path, seq(|path|, _ => way))
    ensures way.AsIs? ==> WrittenAll(path, seq(|path|, _ => way)) == path
    ensures Decoded(WrittenAll(path, seq(|path|, _ => way)), 0) == Some(path)
  {
    hide Decoded;
    var ways := seq(|path|, _ => way);
    if way.AsIs? {
      AsIsIsSelf(path, ways);
    }
    var text := WrittenAll(path, ways);
    assert text[0..] == text;
    EncodedDecodes(text, 0, path, ways);
  }

  lemma {:induction false} AsIsIsSelf(path: seq<Byte>, ways: seq<Spelling>)
    requires |ways| == |path| && forall i :: 0 <= i < |path| ==> ways[i] == AsIs
    ensures WrittenAll(path, ways) == path
  {
    if path != [] {
      AsIsIsSelf(path[1..], ways[1..]);
    }
  }

  // ---------- What the loop does to the output ----------

  predicate EndsWith(out: seq<Byte>, tail: seq<Byte>) {
    |out| >= |tail| && out[|out| - |tail|..] == tail
  }

  /** Back to just after the last slash, or to the beginning. */
  function BackToSlash(out: seq<Byte>): (r: seq<Byte>)
    ensures |r| <= |out|
  {
    if out == [] || out[|out| - 1] == SLASH then out else BackToSlash(out[..|out| - 1])
  }

  /** A slash that completes a "." or ".." segment takes it away, and ".." the segment before it. */
  function Settle(out: seq<Byte>): (r: Option<seq<Byte>>)
    ensures r.Some? ==> |r.value| <= |out|
  {
    if EndsWith(out, [SLASH, DOT, SLASH]) then Some(out[..|out| - 2])
    else if EndsWith(out, [SLASH, DOT, DOT, SLASH]) then
      (if |out| == 4 then None else Some(BackToSlash(out[..|out| - 4])))
    else Some(out)
  }

  /** One decoded character. */
  function Put(out: seq<Byte>, c: Byte): (r: Option<seq<Byte>>)
    ensures r.Some? ==> |r.value| <= |out| + 1
  {
    if c != SLASH then Some(out + [c])
    else if EndsWith(out, [SLASH]) then Some(out)
    else Settle(out + [SLASH])
  }

  /** What happens at the end of the text. */
  function Finish(out: seq<Byte>): Option<seq<Byte>> {
    if EndsWith(out, [SLASH, DOT]) then Some(out[..|out| - 1])
    else if EndsWith(out, [SLASH, DOT, DOT]) then
      (if |out| == 3 then None else Some(BackToSlash(out[..|out| - 3])))
    else Some(out)
  }

  /** The whole pass, for an output buffer of `outlen` bytes. */
  function Walk(text: seq<Byte>, i: nat, out: seq<Byte>, outlen: nat): (r: Option<seq<Byte>>)
    requires i <= |text|
    decreases |text| - i
  {
    if i == |text| then
      match Finish(out)
      case None => None
      case Some(final) => if final != [] && final[0] == SLASH then Some(final) else None
    else
      match CharAt(text, i)
      case None => None
      case Some((c, j)) =>
        if |out| + 1 >= outlen then None
        else
          match Put(out, c)
          case None => None
          case Some(next) => Walk(text, j, next, outlen)
  }

  /** The inner loops that drop a segment. */
  method DropSegment(out: array<Byte>, start: nat) returns (o: nat)
    requires start <= out.Length
    ensures o <= start && out[..o] == BackToSlash(out[..start])
  {
    o := start;
    while o > 0 && out[o - 1] != SLASH
      invariant o <= start && BackToSlash(out[..o]) == BackToSlash(out[..start])
    {
      assert out[..o][..o - 1] == out[..o - 1];
      o := o - 1;
    }
  }

  /** Are the last bytes before `n` these? */
  method Tail(out: array<Byte>, n: nat, tail: seq<Byte>) returns (yes: bool)
    requires n <= out.Length
    ensures yes <==> EndsWith(out[..n], tail)
  {
    if n < |tail| {
      return false;
    }
    assert out[..n][n - |tail|..] == out[n - |tail|..n];
    return out[n - |tail|..n] == tail;
  }

  method SettleInPlace(out: array<Byte>, o: nat) returns (ok: bool, n: nat)
    requires o < out.Length
    modifies out
    ensures n <= o
    ensures ok <==> Settle(old(out[..o])).Some?
    ensures ok ==> Some(out[..n]) == Settle(old(out[..o]))
  {
    hide EndsWith, BackToSlash;
    n := o;
    var dot := Tail(out, n, [SLASH, DOT, SLASH]);
    var dots := Tail(out, n, [SLASH, DOT, DOT, SLASH]);
    LongEnough(out[..n]);
    if dot {
      assert out[..o][..o - 2] == out[..o - 2];
      n := n - 2;
    } else if dots {
      if n == 4 {
        return false, n;
      }
      assert out[..o][..o - 4] == out[..o - 4];
      n := DropSegment(out, n - 4);
    }
    ghost var result := out[..n];
    assert Settle(out[..o]) == Some(result);
    out[n] := 0;
    assert out[..n] == result;
    ok := true;
  }

  lemma LongEnough(out: seq<Byte>)
    ensures EndsWith(out, [SLASH, DOT, SLASH]) ==> |out| >= 3
    ensures EndsWith(out, [SLASH, DOT, DOT, SLASH]) ==> |out| >= 4
    ensures EndsWith(out, [SLASH, DOT]) ==> |out| >= 2
    ensures EndsWith(out, [SLASH, DOT, DOT]) ==> |out| >= 3
    ensures EndsWith(out, [SLASH]) <==> out != [] && out[|out| - 1] == SLASH
  {
  }

  /** The body of the loop once a character is decoded and there is room for it. */
  method PutInPlace(out: array<Byte>, o: nat, c: Byte) returns (ok: bool, n: nat)
    requires o + 1 < out.Length
    modifies out
    ensures n <= o + 1
    ensures ok <==> Put(old(out[..o]), c).Some?
    ensures ok ==> Some(out[..n]) == Put(old(out[..o]), c)
  {
    hide EndsWith, Settle;
    ghost var before := out[..o];
    LongEnough(before);
    n := o;
    if c == SLASH && n > 0 && out[n - 1] == SLASH {
      return true, n;
    }
    out[n] := c;
    n := n + 1;
    out[n] := 0;
    assert out[..n] == before + [c];
    ok := true;
    if c == SLASH {
      ok, n := SettleInPlace(out, n);
    }
  }

  /** normalise_uri */
  method NormaliseUri(text: seq<Byte>, out: array<Byte>) returns (ok: bool, o: nat)
    modifies out
    ensures o <= out.Length
    ensures out.Length < 2 ==> !ok
    ensures out.Length >= 2 ==> (ok <==> Walk(text, 0, [], out.Length).Some?)
    ensures ok ==> Some(out[..o]) == Walk(text, 0, [], out.Length)
  {
    hide Put, BackToSlash, CharAt;
    o := 0;
    if out.Length < 2 {
      return false, o;
    }
    var p := 0;
    assert out[..0] == [];
    while p < |text|
      invariant p <= |text| && o < out.Length
      invariant Walk(text, p, out[..o], out.Length) == Walk(text, 0, [], out.Length)
      decreases |text| - p
    {
      var ch := CharAt(text, p);
      if ch == None {
        return false, o;
      }
      if o + 1 >= out.Length {
        return false, o;
      }
      ok, o := PutInPlace(out, o, ch.value.0);
      if !ok {
        return false, o;
      }
      p := ch.value.1;
    }
    ok, o := FinishInPlace(out, o);
  }

  /** The end of normalise_uri. */
  method FinishInPlace(out: array<Byte>, o: nat) returns (ok: bool, n: nat)
    requires o < out.Length
    modifies out
    ensures n <= out.Length
    ensures ok <==> StartsWithSlash(Finish(old(out[..o]))).Some?
    ensures ok ==> Some(out[..n]) == Finish(old(out[..o]))
  {
    hide EndsWith, BackToSlash;
    n := o;
    ghost var before := out[..o];
    var dot := Tail(out, n, [SLASH, DOT]);
    var dots := Tail(out, n, [SLASH, DOT, DOT]);
    LongEnough(before);
    if dot {
      assert before[..o - 1] == out[..o - 1];
      n := n - 1;
    } else if dots {
      if n == 3 {
        return false, n;
      }
      assert before[..o - 3] == out[..o - 3];
      n := DropSegment(out, n - 3);
    }
    ghost var result := out[..n];
    assert Finish(before) == Some(result);
    out[n] := 0;
    assert out[..n] == result;
    ok := n > 0 && out[0] == SLASH;
  }

  // ---------- The reference: a stack of segments ----------

  /** The segments between the slashes of `text`, empty ones included. */
  function Split(text: seq<Byte>): (segs: seq<seq<Byte>>)
    ensures segs != []
  {
    if text == [] then [[]]
    else
      var rest := Split(text[1..]);
      if text[0] == SLASH then [[]] + rest else [[text[0]] + rest[0]] + rest[1..]
  }

  /** A segment followed by a slash: nothing and "." are dropped, ".." takes away the one before it. */
  function Enter(stack: seq<seq<Byte>>, seg: seq<Byte>): Option<seq<seq<Byte>>> {
    if seg == [] || seg == [DOT] then Some(stack)
    else if seg == [DOT, DOT] then (if stack == [] then None else Some(stack[..|stack| - 1]))
    else Some(stack + [seg])
  }

  /** The directory a stack stands for, with its trailing slash. */
  function Directory(stack: seq<seq<Byte>>): (r: seq<Byte>)
    ensures r != [] && r[|r| - 1] == SLASH
  {
    if stack == [] then [SLASH] else Directory(stack[..|stack| - 1]) + stack[|stack| - 1] + [SLASH]
  }

  /** All segments from the left; the last one, with no slash behind it, is kept as it is unless it is special. */
  function Resolved(stack: seq<seq<Byte>>, segs: seq<seq<Byte>>): Option<seq<Byte>>
    requires segs != []
    decreases |segs|
  {
    if |segs| == 1 && segs[0] != [] && segs[0] != [DOT] && segs[0] != [DOT, DOT] then Some(Directory(stack) + segs[0])
    else
      match Enter(stack, segs[0])
      case None => None
      case Some(next) => if |segs| == 1 then Some(Directory(next)) else Resolved(next, segs[1..])
  }

  /** Resolution of an absolute path. */
  function Reference(path: seq<Byte>): Option<seq<Byte>> {
    if path != [] && path[0] == SLASH then Resolved([], Split(path[1..])) else None
  }

  predicate NoSlash(seg: seq<Byte>) {
    forall i :: 0 <= i < |seg| ==> seg[i] != SLASH
  }

  predicate Plain(seg: seq<Byte>) {
    seg != [] && NoSlash(seg) && seg != [DOT] && seg != [DOT, DOT]
  }

  predicate AllPlain(stack: seq<seq<Byte>>) {
    forall i :: 0 <= i < |stack| ==> Plain(stack[i])
  }

  // ---------- The buffer is the stack, written out ----------

  lemma {:induction false} BackOver(base: seq<Byte>, seg: seq<Byte>)
    requires base != [] && base[|base| - 1] == SLASH && NoSlash(seg)
    ensures BackToSlash(base + seg) == base
    decreases |seg|
  {
    if seg == [] {
      assert base + seg == base;
    } else {
      var n := |seg| - 1;
      assert (base + seg)[..|base + seg| - 1] == base + seg[..n];
      BackOver(base, seg[..n]);
    }
  }

  lemma DirectoryLength(stack: seq<seq<Byte>>)
    requires AllPlain(stack)
    ensures |Directory(stack)| == 1 <==> stack == []
  {
  }

  /** When the buffer ends in "/./" or "/../", and what comes before. */
  lemma SettleCases(base: seq<Byte>, cur: seq<Byte>)
    requires base != [] && base[|base| - 1] == SLASH && NoSlash(cur) && cur != []
    ensures EndsWith(base + cur + [SLASH], [SLASH, DOT, SLASH]) <==> cur == [DOT]
    ensures EndsWith(base + cur + [SLASH], [SLASH, DOT, DOT, SLASH]) <==> cur == [DOT, DOT]
  {
    hide EndsWith;
    EndsInDot(base, cur);
    EndsInDots(base, cur);
  }

  lemma EndsInDot(base: seq<Byte>, cur: seq<Byte>)
    requires base != [] && base[|base| - 1] == SLASH && NoSlash(cur) && cur != []
    ensures EndsWith(base + cur + [SLASH], [SLASH, DOT, SLASH]) <==> cur == [DOT]
  {
    var out := base + cur + [SLASH];
    var n := |out|;
    assert forall i :: 0 <= i < |cur| ==> out[|base| + i] == cur[i];
    if EndsWith(out, [SLASH, DOT, SLASH]) {
      assert out[n - 3] == out[n - 3..][0] && out[n - 2] == out[n - 3..][1];
    }
    if cur == [DOT] {
      assert out[n - 3..] == [SLASH, DOT, SLASH];
    }
  }

  lemma EndsInDots(base: seq<Byte>, cur: seq<Byte>)
    requires base != [] && base[|base| - 1] == SLASH && NoSlash(cur) && cur != []
    ensures EndsWith(base + cur + [SLASH], [SLASH, DOT, DOT, SLASH]) <==> cur == [DOT, DOT]
  {
    var out := base + cur + [SLASH];
    var n := |out|;
    assert forall i :: 0 <= i < |cur| ==> out[|base| + i] == cur[i];
    if EndsWith(out, [SLASH, DOT, DOT, SLASH]) {
      assert out[n - 4] == out[n - 4..][0] && out[n - 3] == out[n - 4..][1] && out[n - 2] == out[n - 4..][2];
    }
    if cur == [DOT, DOT] {
      assert out[n - 4..] == [SLASH, DOT, DOT, SLASH];
    }
  }

  lemma FinishCases(base: seq<Byte>, cur: seq<Byte>)
    requires base != [] && base[|base| - 1] == SLASH && NoSlash(cur)
    ensures EndsWith(base + cur, [SLASH, DOT]) <==> cur == [DOT]
    ensures EndsWith(base + cur, [SLASH, DOT, DOT]) <==> cur == [DOT, DOT]
  {
    var out := base + cur;
    var n := |out|;
    assert forall i :: 0 <= i < |cur| ==> out[|base| + i] == cur[i];
    if EndsWith(out, [SLASH, DOT]) {
      assert out[n - 2] == out[n - 2..][0] && out[n - 1] == out[n - 2..][1];
    }
    if EndsWith(out, [SLASH, DOT, DOT]) {
      assert out[n - 3] == out[n - 3..][0] && out[n - 2] == out[n - 3..][1] && out[n - 1] == out[n - 3..][2];
    }
    if cur == [DOT] {
      assert out[n - 2..] == [SLASH, DOT];
    }
    if cur == [DOT, DOT] {
      assert out[n - 3..] == [SLASH, DOT, DOT];
    }
  }

  lemma PopDirectory(stack: seq<seq<Byte>>)
    requires AllPlain(stack) && stack != []
    ensures var d := Directory(stack);
            BackToSlash(d[..|d| - 1]) == Directory(stack[..|stack| - 1])
  {
    var d, init, last := Directory(stack), Directory(stack[..|stack| - 1]), stack[|stack| - 1];
    assert d[..|d| - 1] == init + last;
    BackOver(init, last);
  }

  lemma DirectoryPush(stack: seq<seq<Byte>>, seg: seq<Byte>)
    ensures Directory(stack + [seg]) == Directory(stack) + seg + [SLASH]
  {
    assert (stack + [seg])[..|stack|] == stack;
  }

  /** A slash on the buffer is a segment entered on the stack. */
  lemma PutSlash(stack: seq<seq<Byte>>, cur: seq<Byte>)
    requires AllPlain(stack) && NoSlash(cur)
    ensures Put(Directory(stack) + cur, SLASH)
            == match Enter(stack, cur) case None => None case Some(next) => Some(Directory(next))
  {
    hide EndsWith, BackToSlash, Directory, NoSlash, AllPlain;
    var base := Directory(stack);
    var out := base + cur;
    LongEnough(out);
    if cur == [] {
      assert out == base;
    } else {
      CurIsLast(base, cur);
      var longer := out + [SLASH];
      SettleCases(base, cur);
      assert Put(out, SLASH) == Settle(longer);
      if cur == [DOT] {
        assert longer[..|longer| - 2] == base;
      } else if cur == [DOT, DOT] {
        DirectoryLength(stack);
        assert longer[..|longer| - 4] == base[..|base| - 1];
        if stack != [] {
          PopDirectory(stack);
        }
      } else {
        DirectoryPush(stack, cur);
      }
    }
  }

  lemma CurIsLast(base: seq<Byte>, cur: seq<Byte>)
    requires NoSlash(cur) && cur != []
    ensures (base + cur)[|base + cur| - 1] != SLASH
  {
  }

  lemma EnterPlain(stack: seq<seq<Byte>>, cur: seq<Byte>)
    requires AllPlain(stack) && NoSlash(cur) && Enter(stack, cur).Some?
    ensures AllPlain(Enter(stack, cur).value)
  {
  }

  lemma FinishLast(stack: seq<seq<Byte>>, cur: seq<Byte>)
    requires AllPlain(stack) && NoSlash(cur)
    ensures Finish(Directory(stack) + cur) == Resolved(stack, [cur])
  {
    hide EndsWith, BackToSlash, Directory, NoSlash, AllPlain;
    var base := Directory(stack);
    var out := base + cur;
    FinishCases(base, cur);
    DirectoryLength(stack);
    LongEnough(out);
    if cur == [] {
      assert out == base;
    } else if cur == [DOT] {
      assert out[..|out| - 1] == base;
    } else if cur == [DOT, DOT] {
      assert out[..|out| - 3] == base[..|base| - 1];
      if stack != [] {
        PopDirectory(stack);
      }
    }
  }

  /** The pass over decoded text, without the limit on the buffer. */
  function Fed(out: seq<Byte>, chars: seq<Byte>): Option<seq<Byte>>
    decreases |chars|
  {
    if chars == [] then Finish(out)
    else
      match Put(out, chars[0])
      case None => None
      case Some(next) => Fed(next, chars[1..])
  }

  lemma {:induction false} SplitPlain(seg: seq<Byte>, rest: seq<Byte>)
    requires NoSlash(seg)
    ensures Split(seg) == [seg]
    ensures Split(seg + [SLASH] + rest) == [seg] + Split(rest)
    decreases |seg|
  {
    if seg == [] {
      assert seg + [SLASH] + rest == [SLASH] + rest;
      assert ([SLASH] + rest)[1..] == rest;
    } else {
      SplitPlain(seg[1..], rest);
      assert (seg + [SLASH] + rest)[1..] == seg[1..] + [SLASH] + rest;
      assert seg == [seg[0]] + seg[1..];
    }
  }

  /** In-place editing of the buffer is resolution on the stack. */
  lemma {:induction false} FedResolves(stack: seq<seq<Byte>>, cur: seq<Byte>, chars: seq<Byte>)
    requires AllPlain(stack) && NoSlash(cur)
    ensures Fed(Directory(stack) + cur, chars) == Resolved(stack, Split(cur + chars))
    decreases |chars|
  {
    hide Put, Finish, Split, Directory, Enter, AllPlain;
    if chars == [] {
      assert cur + chars == cur;
      SplitPlain(cur, []);
      FinishLast(stack, cur);
    } else if chars[0] == SLASH {
      PutSlash(stack, cur);
      SplitPlain(cur, chars[1..]);
      assert cur + chars == cur + [SLASH] + chars[1..];
      EnterFirst(stack, cur, Split(chars[1..]));
      match Enter(stack, cur)
      case None =>
      case Some(next) =>
        EnterPlain(stack, cur);
        FedResolves(next, [], chars[1..]);
        assert Directory(next) + [] == Directory(next) && [] + chars[1..] == chars[1..];
    } else {
      PutOther(Directory(stack), cur, chars[0]);
      FedResolves(stack, cur + [chars[0]], chars[1..]);
      assert cur + [chars[0]] + chars[1..] == cur + chars;
    }
  }

  lemma PutOther(base: seq<Byte>, cur: seq<Byte>, c: Byte)
    requires c != SLASH
    ensures Put(base + cur, c) == Some(base + (cur + [c]))
  {
    assert base + cur + [c] == base + (cur + [c]);
  }

  lemma EnterFirst(stack: seq<seq<Byte>>, seg: seq<Byte>, rest: seq<seq<Byte>>)
    requires rest != []
    ensures Resolved(stack, [seg] + rest) == match Enter(stack,
              seg) case None => None case Some(next) => Resolved(next, rest)
  {
    assert ([seg] + rest)[1..] == rest;
  }

  // ---------- The theorems ----------

  function StartsWithSlash(r: Option<seq<Byte>>): Option<seq<Byte>> {
    if r.Some? && r.value != [] && r.value[0] == SLASH then r else None
  }

  /** The pass decodes as it goes; the limit on the buffer can only make it refuse. */
  lemma {:induction false} WalkFeeds(text: seq<Byte>, i: nat, out: seq<Byte>, outlen: nat)
    requires i <= |text|
    ensures Decoded(text, i) == None ==> Walk(text, i, out, outlen) == None
    ensures Decoded(text, i).Some? && Walk(text, i, out, outlen).Some? ==>
              Walk(text, i, out, outlen) == StartsWithSlash(Fed(out, Decoded(text, i).value))
    ensures Decoded(text, i).Some? && |out| + |Decoded(text, i).value| < outlen ==>
              Walk(text, i, out, outlen) == StartsWithSlash(Fed(out, Decoded(text, i).value))
    decreases |text| - i
  {
    hide Put, Finish, CharAt;
    if i < |text| {
      match CharAt(text, i)
      case None =>
      case Some((c, j)) =>
        match Put(out, c)
        case None =>
        case Some(next) =>
          WalkFeeds(text, j, next, outlen);
          if Decoded(text, j).Some? {
            assert ([c] + Decoded(text, j).value)[1..] == Decoded(text, j).value;
          }
    }
  }

  lemma FedReference(path: seq<Byte>)
    requires path != [] && path[0] == SLASH
    ensures StartsWithSlash(Fed([], path)) == Reference(path)
  {
    var rest := path[1..];
    assert Put([], SLASH) == Some([SLASH]) by { assert [] + [SLASH] == [SLASH]; }
    assert Directory([]) + [] == [SLASH] && [] + rest == rest;
    FedResolves([], [], rest);
    if Reference(path).Some? {
      SplitNoSlash(rest);
      var _, _ := ResolvedShape([], Split(rest));
    }
  }

  lemma {:induction false} SplitNoSlash(text: seq<Byte>)
    ensures forall i :: 0 <= i < |Split(text)| ==> NoSlash(Split(text)[i])
  {
    if text != [] {
      SplitNoSlash(text[1..]);
    }
  }

  ghost predicate Shaped(r: seq<Byte>, stack: seq<seq<Byte>>, last: seq<Byte>) {
    r == Directory(stack) + last && AllPlain(stack) && (last == [] || Plain(last))
  }

  lemma {:induction false} DirectoryStarts(stack: seq<seq<Byte>>)
    ensures Directory(stack)[0] == SLASH
  {
    if stack != [] {
      DirectoryStarts(stack[..|stack| - 1]);
    }
  }

  /** A result is a directory of plain segments and at most one plain name. */
  lemma {:induction false} ResolvedShape(stack: seq<seq<Byte>>, segs: seq<seq<Byte>>)
    returns (final: seq<seq<Byte>>, last: seq<Byte>)
    requires AllPlain(stack) && segs != [] && (forall i :: 0 <= i < |segs| ==>
               NoSlash(segs[i])) && Resolved(stack, segs).Some?
    ensures Shaped(Resolved(stack, segs).value, final, last) && Resolved(stack, segs).value[0] == SLASH
    decreases |segs|
  {
    if |segs| == 1 && segs[0] != [] && segs[0] != [DOT] && segs[0] != [DOT, DOT] {
      final, last := stack, segs[0];
      DirectoryStarts(stack);
    } else {
      var next := Enter(stack, segs[0]).value;
      if |segs| == 1 {
        final, last := next, [];
        assert Directory(next) + [] == Directory(next);
        DirectoryStarts(next);
      } else {
        final, last := ResolvedShape(next, segs[1..]);
      }
    }
  }

  /** Whenever normalise_uri accepts an absolute path, its result is that of resolving the decoded text. */
  lemma NormalisedIsResolved(text: seq<Byte>, outlen: nat)
    requires Walk(text, 0, [], outlen).Some?
    ensures Decoded(text, 0).Some?
    ensures Decoded(text, 0).value != [] && Decoded(text, 0).value[0] == SLASH ==>
              Walk(text, 0, [], outlen) == Reference(Decoded(text, 0).value)
  {
    hide Fed, Walk, Reference, Decoded;
    WalkFeeds(text, 0, [], outlen);
    var path := Decoded(text, 0).value;
    if path != [] && path[0] == SLASH {
      FedReference(path);
    }
  }

  /** If the decoded text fits the buffer, it accepts exactly the paths that resolve. */
  lemma NormalisesExactly(text: seq<Byte>, outlen: nat)
    requires Decoded(text, 0).Some? && Decoded(text, 0).value != [] && Decoded(text, 0).value[0] == SLASH
    requires |Decoded(text, 0).value| < outlen
    ensures Walk(text, 0, [], outlen) == Reference(Decoded(text, 0).value)
  {
    hide Fed, Walk, Reference, Decoded;
    WalkFeeds(text, 0, [], outlen);
    FedReference(Decoded(text, 0).value);
  }

  /** No empty segment inside, no "." and no "..". */
  predicate Clean(path: seq<Byte>) {
    && path != [] && path[0] == SLASH
    && var segs := Split(path[1..]);
       && (forall i :: 0 <= i < |segs| - 1 ==> Plain(segs[i]))
       && (segs[|segs| - 1] == [] || Plain(segs[|segs| - 1]))
  }

  /** The segments of a directory and a name are the stack and the name. */
  lemma {:induction false} SplitDirectory(stack: seq<seq<Byte>>, last: seq<Byte>)
    requires AllPlain(stack) && NoSlash(last)
    ensures Directory(stack)[0] == SLASH && Split((Directory(stack) + last)[1..]) == stack + [last]
  {
    DirectoryStarts(stack);
    SplitTail(stack, last);
    assert (Directory(stack) + last)[1..] == Directory(stack)[1..] + last;
    SplitPlain(last, []);
    assert stack + [last] == stack + Split(last);
  }

  lemma {:induction false} SplitTail(stack: seq<seq<Byte>>, tail: seq<Byte>)
    requires AllPlain(stack)
    ensures Directory(stack)[0] == SLASH && Split(Directory(stack)[1..] + tail) == stack + Split(tail)
    decreases |stack|
  {
    hide Split, NoSlash;
    DirectoryStarts(stack);
    if stack == [] {
      assert Directory(stack)[1..] + tail == tail;
    } else {
      var n := |stack| - 1;
      var init, seg := stack[..n], stack[n];
      DirectoryStarts(init);
      assert Directory(stack) == Directory(init) + (seg + [SLASH]);
      assert Directory(stack)[1..] + tail == Directory(init)[1..] + (seg + [SLASH] + tail);
      SplitTail(init, seg + [SLASH] + tail);
      SplitPlain(seg, tail);
      assert stack + Split(tail) == init + ([seg] + Split(tail));
    }
  }

  /** What comes out is clean. */
  lemma ResultIsClean(path: seq<Byte>)
    requires Reference(path).Some?
    ensures Clean(Reference(path).value)
  {
    SplitNoSlash(path[1..]);
    var stack, last := ResolvedShape([], Split(path[1..]));
    SplitDirectory(stack, last);
    var segs := Split(Reference(path).value[1..]);
    assert segs == stack + [last];
    forall i | 0 <= i < |segs| - 1 ensures Plain(segs[i]) {
      assert segs[i] == stack[i];
    }
  }

  /** A clean path resolves to itself. */
  lemma CleanIsFixed(path: seq<Byte>)
    requires Clean(path)
    ensures Reference(path) == Some(path)
  {
    hide Split, Resolved, Directory;
    var segs := Split(path[1..]);
    var n := |segs| - 1;
    var stack, last := segs[..n], segs[n];
    assert segs == stack + [last];
    PlainResolves([], stack, last);
    assert [] + stack == stack;
    SplitDirectory(stack, last);
    SplitInjective((Directory(stack) + last)[1..], path[1..]);
    assert path == [SLASH] + path[1..] && Directory(stack) + last == [SLASH] + (Directory(stack) + last)[1..];
  }

  lemma {:induction false} PlainResolves(stack: seq<seq<Byte>>, more: seq<seq<Byte>>, last: seq<Byte>)
    requires AllPlain(more) && (last == [] || Plain(last))
    ensures Resolved(stack, more + [last]) == Some(Directory(stack + more) + last)
    decreases |more|
  {
    if more == [] {
      assert more + [last] == [last] && stack + more == stack;
      assert Directory(stack) + [] == Directory(stack);
    } else {
      assert more + [last] == [more[0]] + (more[1..] + [last]);
      EnterFirst(stack, more[0], more[1..] + [last]);
      PlainResolves(stack + [more[0]], more[1..], last);
      assert stack + [more[0]] + more[1..] == stack + more;
    }
  }

  lemma {:induction false} SplitInjective(a: seq<Byte>, b: seq<Byte>)
    requires Split(a) == Split(b)
    ensures a == b
    decreases |a|
  {
    if a == [] {
      SplitSizes(b);
    } else if b == [] {
      SplitSizes(a);
    } else {
      var ra, rb := Split(a[1..]), Split(b[1..]);
      SplitHead(a);
      SplitHead(b);
      if a[0] == SLASH {
        assert ra == Split(a)[1..] && rb == Split(b)[1..];
      } else {
        assert ra[0] == Split(a)[0][1..] && rb[0] == Split(b)[0][1..];
        assert ra[1..] == Split(a)[1..] && rb[1..] == Split(b)[1..];
        assert ra == [ra[0]] + ra[1..] && rb == [rb[0]] + rb[1..];
      }
      SplitInjective(a[1..], b[1..]);
      assert a == [a[0]] + a[1..] && b == [b[0]] + b[1..];
    }
  }

  lemma SplitHead(a: seq<Byte>)
    requires a != []
    ensures Split(a)[0] == [] <==> a[0] == SLASH
    ensures a[0] != SLASH ==> Split(a)[0][0] == a[0]
  {
  }

  lemma SplitSizes(a: seq<Byte>)
    requires Split(a) == [[]]
    ensures a == []
  {
  }

  /** Resolving twice is resolving once. */
  lemma ResolvingTwice(path: seq<Byte>)
    requires Reference(path).Some?
    ensures Reference(Reference(path).value) == Reference(path)
  {
    ResultIsClean(path);
    CleanIsFixed(Reference(path).value);
  }

  /**
    Without a leading slash the law fails: "../..//" is accepted as "/", although its first ".." has
    nothing to take away.  The callers only pass text that begins with a slash.
    */
  lemma RelativeTextEscapes()
    ensures var text := [DOT, DOT, SLASH, DOT, DOT, SLASH, SLASH];
            && Walk(text, 0, [], 64) == Some([SLASH])
            && Resolved([], Split(text)) == None
  {
    var text: seq<Byte> := [DOT, DOT, SLASH, DOT, DOT, SLASH, SLASH];
    EscapeAccepted(text);
    EscapeUnresolved(text);
  }

  /** A raw NUL is not refused. */
  lemma RawNulAccepted()
    ensures Walk([SLASH, 0], 0, [], 64) == Some([SLASH, 0])
  {
    var text: seq<Byte> := [SLASH, 0];
    NulEnds(text);
    hide Walk, Put;
    PutFirstSlash([], [SLASH]);
    PutPlain([SLASH], 0, text);
    WalkOn(text, 1, [SLASH], text);
    WalkOn(text, 0, [], [SLASH]);
  }

  lemma NulEnds(text: seq<Byte>)
    requires text == [SLASH, 0]
    ensures Walk(text, 2, text, 64) == Some(text)
  {
    assert text[|text| - 2..][1] == 0;
  }

  /** Text that decodes at all holds a NUL exactly if there is a raw one in it: only escaped ones are refused. */
  lemma {:induction false} NulExactly(text: seq<Byte>, i: nat)
    requires i <= |text| && Decoded(text, i).Some?
    ensures 0 in Decoded(text, i).value <==> 0 in text[i..]
    decreases |text| - i
  {
    if i < |text| {
      var (c, j) := CharAt(text, i).value;
      NulExactly(text, j);
      NulAt(text, i);
      var rest := Decoded(text, j).value;
      assert Decoded(text, i).value == [c] + rest;
      assert text[i..] == text[i..j] + text[j..];
    }
  }

  lemma NulAt(text: seq<Byte>, i: nat)
    requires i < |text| && CharAt(text, i).Some?
    ensures var (c, j) := CharAt(text, i).value; c == 0 <==> 0 in text[i..j]
  {
    var (c, j) := CharAt(text, i).value;
    var part := text[i..j];
    if j == i + 1 {
      assert part == [text[i]];
    } else {
      assert part == [text[i], text[i + 1], text[i + 2]];
    }
  }

  lemma EscapeUnresolved(text: seq<Byte>)
    requires text == [DOT, DOT, SLASH, DOT, DOT, SLASH, SLASH]
    ensures Resolved([], Split(text)) == None
  {
    var rest := text[3..];
    assert text == [DOT, DOT] + [SLASH] + rest;
    SplitPlain([DOT, DOT], rest);
    EnterFirst([], [DOT, DOT], Split(rest));
  }

  lemma EscapeAccepted(text: seq<Byte>)
    requires text == [DOT, DOT, SLASH, DOT, DOT, SLASH, SLASH]
    ensures Walk(text, 0, [], 64) == Some([SLASH])
  {
    hide Walk, Put;
    EscapeBegins(text);
    EscapePops(text);
    EscapeEnds(text);
    PutFirstSlash([], [SLASH]);
    WalkOn(text, 6, [], [SLASH]);
  }

  lemma EscapeBegins(text: seq<Byte>)
    requires |text| == 7 && text[0] == DOT && text[1] == DOT && text[2] == SLASH
    ensures Walk(text, 0, [], 64) == Walk(text, 3, [DOT, DOT, SLASH], 64)
  {
    hide Walk, Put;
    PutPlain([], DOT, [DOT]);
    PutPlain([DOT], DOT, [DOT, DOT]);
    PutFirstSlash([DOT, DOT], [DOT, DOT, SLASH]);
    WalkOn(text, 2, [DOT, DOT], [DOT, DOT, SLASH]);
    WalkOn(text, 1, [DOT], [DOT, DOT]);
    WalkOn(text, 0, [], [DOT]);
  }

  lemma EscapePops(text: seq<Byte>)
    requires |text| == 7 && text[3] == DOT && text[4] == DOT && text[5] == SLASH
    ensures Walk(text, 3, [DOT, DOT, SLASH], 64) == Walk(text, 6, [], 64)
  {
    hide Walk, Put;
    var four: seq<Byte>, five: seq<Byte> := [DOT, DOT, SLASH, DOT], [DOT, DOT, SLASH, DOT, DOT];
    PutPlain([DOT, DOT, SLASH], DOT, four);
    PutPlain(four, DOT, five);
    PopsItself(five);
    WalkOn(text, 5, five, []);
    WalkOn(text, 4, four, five);
    WalkOn(text, 3, [DOT, DOT, SLASH], four);
  }

  lemma EscapeEnds(text: seq<Byte>)
    requires |text| == 7
    ensures Walk(text, 7, [SLASH], 64) == Some([SLASH])
  {
  }

  lemma PutFirstSlash(out: seq<Byte>, next: seq<Byte>)
    requires NoSlash(out) && next == out + [SLASH]
    ensures Put(out, SLASH) == Some(next)
  {
    hide EndsWith, NoSlash;
    LongEnough(out);
    OneSlash(out);
    NoDotBefore(out);
    NoDotsBefore(out);
  }

  lemma OneSlash(out: seq<Byte>)
    requires NoSlash(out)
    ensures out != [] ==> out[|out| - 1] != SLASH
  {
  }

  lemma NoDotBefore(out: seq<Byte>)
    requires NoSlash(out)
    ensures !EndsWith(out + [SLASH], [SLASH, DOT, SLASH])
  {
    var next := out + [SLASH];
    var n := |next|;
    assert n >= 3 ==> next[n - 3..][0] == out[n - 3];
  }

  lemma NoDotsBefore(out: seq<Byte>)
    requires NoSlash(out)
    ensures !EndsWith(out + [SLASH], [SLASH, DOT, DOT, SLASH])
  {
    var next := out + [SLASH];
    var n := |next|;
    assert n >= 4 ==> next[n - 4..][0] == out[n - 4];
  }

  lemma WalkOn(text: seq<Byte>, i: nat, out: seq<Byte>, next: seq<Byte>)
    requires i < |text| && text[i] != PERCENT && |out| < 60 && Put(out, text[i]) == Some(next)
    ensures Walk(text, i, out, 64) == Walk(text, i + 1, next, 64)
  {
  }

  lemma PutPlain(out: seq<Byte>, c: Byte, next: seq<Byte>)
    requires c != SLASH && out + [c] == next
    ensures Put(out, c) == Some(next)
  {
  }

  lemma PopsItself(five: seq<Byte>)
    requires five == [DOT, DOT, SLASH, DOT, DOT]
    ensures Put(five, SLASH) == Some([])
  {
    var out: seq<Byte> := [DOT, DOT, SLASH, DOT, DOT, SLASH];
    assert five + [SLASH] == out && !EndsWith(five, [SLASH]);
    assert out[2..] == [SLASH, DOT, DOT, SLASH];
    assert out[3..] == [DOT, DOT, SLASH];
    assert out[..2] == [DOT, DOT];
    NoSlashBack([DOT, DOT]);
  }

  lemma {:induction false} NoSlashBack(seg: seq<Byte>)
    requires NoSlash(seg)
    ensures BackToSlash(seg) == []
  {
    if seg != [] {
      NoSlashBack(seg[..|seg| - 1]);
    }
  }

  // ---------- Every text, absolute or not ----------

  /** What follows the ".." that takes away more than the stack holds. */
  function Undone(stack: seq<seq<Byte>>, segs: seq<seq<Byte>>): Option<seq<seq<Byte>>>
    decreases |segs|
  {
    if segs == [] then None
    else
      match Enter(stack, segs[0])
      case None => Some(segs[1..])
      case Some(next) => Undone(next, segs[1..])
  }

  /** The absolute path left once each leading name has been taken away again by a later "..". */
  function Escape(segs: seq<seq<Byte>>): (r: Option<seq<seq<Byte>>>)
    requires segs != []
    ensures r.Some? ==> r.value != []
    decreases |segs|
  {
    if segs[0] == [] then (if |segs| == 1 then None else Some(segs[1..]))
    else
      UndoneShorter([], segs[1..]);
      match Undone([], segs[1..])
      case None => None
      case Some(rest) => if rest == [] then None else Escape(rest)
  }

  lemma {:induction false} UndoneShorter(stack: seq<seq<Byte>>, segs: seq<seq<Byte>>)
    ensures Undone(stack, segs).Some? ==> |Undone(stack, segs).value| <= |segs|
    decreases |segs|
  {
    if segs != [] && Enter(stack, segs[0]).Some? {
      UndoneShorter(Enter(stack, segs[0]).value, segs[1..]);
    }
  }

  function Escaped(segs: seq<seq<Byte>>): Option<seq<Byte>>
    requires segs != []
  {
    match Escape(segs) case None => None case Some(rest) => Resolved([], rest)
  }

  /** A name without a slash before it is kept even if it is "." or ".."; a ".." on top of it empties the buffer. */
  lemma PutSlashAfter(name: seq<Byte>, stack: seq<seq<Byte>>, cur: seq<Byte>)
    requires name != [] && NoSlash(name) && AllPlain(stack) && NoSlash(cur)
    ensures Put(name + Directory(stack) + cur, SLASH)
            == match Enter(stack, cur) case None => Some([]) case Some(next) => Some(name + Directory(next))
  {
    hide EndsWith, BackToSlash, Directory, NoSlash, AllPlain;
    var base := name + Directory(stack);
    var out := base + cur;
    LongEnough(out);
    if cur == [] {
      assert out == base;
    } else {
      CurIsLast(base, cur);
      var longer := out + [SLASH];
      SettleCases(base, cur);
      assert Put(out, SLASH) == Settle(longer);
      if cur == [DOT] {
        assert longer[..|longer| - 2] == base;
      } else if cur == [DOT, DOT] {
        assert longer[..|longer| - 4] == base[..|base| - 1];
        PopAfter(name, stack);
      } else {
        DirectoryPush(stack, cur);
        assert longer == name + (Directory(stack) + cur + [SLASH]);
      }
    }
  }

  lemma PopAfter(name: seq<Byte>, stack: seq<seq<Byte>>)
    requires name != [] && NoSlash(name) && AllPlain(stack)
    ensures var base := name + Directory(stack);
            BackToSlash(base[..|base| - 1]) == if stack == [] then [] else name + Directory(stack[..|stack| - 1])
  {
    hide BackToSlash, NoSlash;
    var base := name + Directory(stack);
    if stack == [] {
      assert base[..|base| - 1] == name;
      NoSlashBack(name);
    } else {
      var init, last := Directory(stack[..|stack| - 1]), stack[|stack| - 1];
      hide Directory, AllPlain;
      assert base == (name + init + last) + [SLASH];
      assert base[..|base| - 1] == (name + init) + last;
      BackOver(name + init, last);
    }
  }

  lemma FinishAfter(name: seq<Byte>, stack: seq<seq<Byte>>, cur: seq<Byte>)
    requires name != [] && NoSlash(name) && AllPlain(stack) && NoSlash(cur)
    ensures StartsWithSlash(Finish(name + Directory(stack) + cur)) == None
  {
    hide EndsWith, BackToSlash, Directory, AllPlain;
    var base := name + Directory(stack);
    var out := base + cur;
    FinishCases(base, cur);
    LongEnough(out);
    PopAfter(name, stack);
    assert out[0] == name[0] && base[0] == name[0];
    if cur == [DOT] {
      assert out[..|out| - 1] == base;
    } else if cur == [DOT, DOT] {
      assert out[..|out| - 3] == base[..|base| - 1];
    }
  }

  lemma UndoneFirst(stack: seq<seq<Byte>>, seg: seq<Byte>, rest: seq<seq<Byte>>)
    ensures Undone(stack, [seg] + rest) == match Enter(stack,
              seg) case None => Some(rest) case Some(next) => Undone(next, rest)
  {
    assert ([seg] + rest)[1..] == rest;
  }

  function AfterName(undone: Option<seq<seq<Byte>>>): Option<seq<Byte>> {
    if undone.None? || undone.value == [] then None else Escaped(undone.value)
  }

  lemma {:induction false} FedAfter(name: seq<Byte>, stack: seq<seq<Byte>>, cur: seq<Byte>, chars: seq<Byte>)
    requires name != [] && NoSlash(name) && AllPlain(stack) && NoSlash(cur)
    ensures StartsWithSlash(Fed(name + Directory(stack) + cur, chars)) == AfterName(Undone(stack, Split(cur + chars)))
    decreases |chars|
  {
    hide Put, Finish, Split, Directory, Enter, AllPlain, NoSlash, Escaped, StartsWithSlash, Undone;
    if chars == [] {
      assert cur + chars == cur;
      SplitPlain(cur, []);
      UndoneLast(stack, cur);
      FinishAfter(name, stack, cur);
    } else if chars[0] == SLASH {
      PutSlashAfter(name, stack, cur);
      SplitPlain(cur, chars[1..]);
      assert cur + chars == cur + [SLASH] + chars[1..];
      UndoneFirst(stack, cur, Split(chars[1..]));
      match Enter(stack, cur)
      case None => FedAny(chars[1..]);
      case Some(next) =>
        EnterPlain(stack, cur);
        Empty();
        FedAfter(name, next, [], chars[1..]);
        assert name + Directory(next) + [] == name + Directory(next) && [] + chars[1..] == chars[1..];
    } else {
      PutOther(name + Directory(stack), cur, chars[0]);
      OneMore(cur, chars[0]);
      FedAfter(name, stack, cur + [chars[0]], chars[1..]);
      assert cur + [chars[0]] + chars[1..] == cur + chars;
    }
  }

  lemma UndoneLast(stack: seq<seq<Byte>>, cur: seq<Byte>)
    ensures AfterName(Undone(stack, [cur])) == None
  {
    UndoneFirst(stack, cur, []);
    assert [cur] + [] == [cur];
  }

  lemma Empty()
    ensures NoSlash([])
  {
  }

  lemma OneMore(cur: seq<Byte>, c: Byte)
    requires NoSlash(cur) && c != SLASH
    ensures NoSlash(cur + [c])
  {
  }

  lemma {:induction false} FedName(name: seq<Byte>, chars: seq<Byte>)
    requires name != [] && NoSlash(name)
    ensures StartsWithSlash(Fed(name, chars)) == Escaped(Split(name + chars))
    decreases |chars|
  {
    hide Put, Finish, Split, Enter, NoSlash, Undone;
    if chars == [] {
      assert name + chars == name;
      SplitPlain(name, []);
      FinishName(name);
      UndoneNothing();
      EscapeName(name, []);
      assert [name] + [] == [name];
    } else if chars[0] == SLASH {
      PutFirstSlash(name, name + [SLASH]);
      SplitPlain(name, chars[1..]);
      assert name + chars == name + [SLASH] + chars[1..];
      Empty();
      FedAfter(name, [], [], chars[1..]);
      assert name + Directory([]) + [] == name + [SLASH] && [] + chars[1..] == chars[1..];
      EscapeName(name, Split(chars[1..]));
    } else {
      PutOther([], name, chars[0]);
      OneMore(name, chars[0]);
      assert [] + name == name && [] + (name + [chars[0]]) == name + [chars[0]];
      FedName(name + [chars[0]], chars[1..]);
      assert name + [chars[0]] + chars[1..] == name + chars;
    }
  }

  lemma UndoneNothing()
    ensures Undone([], []) == None
  {
  }

  lemma EscapeName(name: seq<Byte>, rest: seq<seq<Byte>>)
    requires name != []
    ensures Escaped([name] + rest) == AfterName(Undone([], rest))
  {
    assert ([name] + rest)[1..] == rest;
  }

  lemma FinishName(name: seq<Byte>)
    requires name != [] && NoSlash(name)
    ensures StartsWithSlash(Finish(name)) == None
  {
    var n := |name|;
    assert n >= 2 ==> name[n - 2..][0] == name[n - 2];
    assert n >= 3 ==> name[n - 3..][0] == name[n - 3];
  }

  /** What the pass makes of any decoded text at all, in terms of its segments. */
  lemma {:induction false} FedAny(path: seq<Byte>)
    ensures StartsWithSlash(Fed([], path)) == Escaped(Split(path))
    decreases |path|
  {
    if path == [] {
      assert !EndsWith([], [SLASH, DOT]) && !EndsWith([], [SLASH, DOT, DOT]);
    } else if path[0] == SLASH {
      FedReference(path);
      assert Split(path) == [[]] + Split(path[1..]);
      assert Split(path)[1..] == Split(path[1..]);
    } else {
      var c := path[0];
      assert [] + [c] == [c] && [c] + path[1..] == path;
      OneMore([], c);
      FedName([c], path[1..]);
    }
  }

  /** The decoded text is no absolute path, but becomes one because ".." takes away its first names. */
  predicate Escapes(path: seq<Byte>) {
    (path == [] || path[0] != SLASH) && Escaped(Split(path)).Some?
  }

  /**
    The law holds exactly of the texts that do not escape: of those normalise_uri accepts the absolute
    paths that resolve, with the resolved path, and nothing else.
    */
  lemma LawHoldsExactly(text: seq<Byte>, outlen: nat)
    requires Decoded(text, 0).Some? && |Decoded(text, 0).value| < outlen
    ensures Walk(text, 0, [], outlen) == Reference(Decoded(text, 0).value) <==> !Escapes(Decoded(text, 0).value)
  {
    hide Fed, Walk, Split, Escaped, Resolved, Decoded;
    WalkFeeds(text, 0, [], outlen);
    var path := Decoded(text, 0).value;
    if path != [] && path[0] == SLASH {
      FedReference(path);
    } else {
      FedAny(path);
    }
  }
}
