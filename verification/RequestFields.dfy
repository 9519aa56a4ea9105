/**
  The fields of a request as h3_req_fields_t of core/tincd/src/h3.c holds them: what qd_keep, called for
  one field after the other, has gathered from all of them.
  */
module RequestFields {
  import opened Wrappers
  import opened Bits
  import opened StaticTable
  import opened FieldSection

  predicate IsPseudo(e: Entry) {
    e.name != [] && e.name[0] == 58
  }

  /** A name in lower case and of token characters only. */
  predicate LowerToken(name: seq<Byte>) {
    name != [] && forall b :: b in name ==> TokenByte(b)
  }

  lemma NameOkExactly(name: seq<Byte>)
    ensures NameOk(name) <==> LowerToken(name)
  {
  }

  lemma OneLineExactly(value: seq<Byte>)
    ensures OneLine(value) <==> 13 !in value && 10 !in value
  {
  }

  function LineOf(e: Entry): seq<Byte> {
    e.name + Text(": ") + e.value + Text("\r\n")
  }

  lemma LineOfExactly(e: Entry)
    ensures HeaderLine(e.name, e.value) == LineOf(e)
  {
    assert Text(": ") == [58, 32] && Text("\r\n") == [13, 10];
  }

  /** A field the request may have: of a proper name, on one line, and within the room there is for it. */
  predicate Proper(e: Entry) {
    if IsPseudo(e) then
      && (e.name == Text(":authority") ==> |e.value| < AUTHORITY_CAP)
      && (e.name == Text(":path") ==> |e.value| < PATH_CAP)
      && (e.name == Text(":method") ==> |e.value| < VERB_CAP)
    else
      LowerToken(e.name) && 13 !in e.value && 10 !in e.value && (e.name == Text("host") ==> |e.value| < AUTHORITY_CAP)
  }

  /** The value of the last field of that name, empty if there is none. */
  function LastValue(es: seq<Entry>, name: seq<Byte>): seq<Byte> {
    if es == [] then []
    else
      var n := |es| - 1;
      if es[n].name == name then es[n].value else LastValue(es[..n], name)
  }

  /** A header line for every field that is neither a pseudo-header nor host, in order. */
  function HeaderLines(es: seq<Entry>): seq<Byte> {
    if es == [] then []
    else
      var n := |es| - 1;
      HeaderLines(es[..n])
      + if IsPseudo(es[n]) || es[n].name == Text("host") then [] else LineOf(es[n])
  }

  /** The values of the fields of that name, in order. */
  function Values(es: seq<Entry>, name: seq<Byte>): seq<seq<Byte>> {
    if es == [] then []
    else
      var n := |es| - 1;
      Values(es[..n], name) + if es[n].name == name then [es[n].value] else []
  }

  // ---------- Cookies ----------

  /** With "; " between one and the next. */
  function Spaced(vs: seq<seq<Byte>>): seq<Byte> {
    if vs == [] then []
    else
      var n := |vs| - 1;
      if n == 0 then vs[0] else Spaced(vs[..n]) + [59, 32] + vs[n]
  }

  /** Without the empty values in front. */
  function Started(vs: seq<seq<Byte>>): seq<seq<Byte>> {
    if vs != [] && vs[0] == [] then Started(vs[1..]) else vs
  }

  /** The cookies there is room for, each after those before it. */
  function KeptCookies(vs: seq<seq<Byte>>): (kept: seq<seq<Byte>>)
    ensures |Spaced(Started(kept))| < COOKIE_CAP
  {
    if vs == [] then []
    else
      var n := |vs| - 1;
      var before := KeptCookies(vs[..n]);
      StartedMore(before, vs[n]);
      if |Spaced(Started(before))| + 2 + |vs[n]| < COOKIE_CAP then before + [vs[n]] else before
  }

  lemma {:induction false} StartedMore(vs: seq<seq<Byte>>, v: seq<Byte>)
    ensures Spaced(Started(vs)) == [] <==> Started(vs) == []
    ensures Spaced(Started(vs + [v]))
            == if Spaced(Started(vs)) == [] then v else Spaced(Started(vs)) + [59, 32] + v
  {
    if vs == [] {
      assert vs + [v] == [v] && [v][1..] == [];
    } else if vs[0] == [] {
      StartedMore(vs[1..], v);
      assert (vs + [v])[1..] == vs[1..] + [v];
    } else {
      assert (vs + [v])[..|vs|] == vs;
      SpacedNotEmpty(vs);
    }
  }

  lemma SpacedNotEmpty(vs: seq<seq<Byte>>)
    requires vs != [] && vs[0] != []
    ensures Spaced(vs) != []
  {
  }

  /** Joining cookies one by one is joining all that were kept. */
  lemma CookiesJoin(vs: seq<seq<Byte>>, v: seq<Byte>)
    ensures JoinCookie(Spaced(Started(KeptCookies(vs))), v) == Spaced(Started(KeptCookies(vs + [v])))
  {
    hide Spaced, Started;
    StartedMore(KeptCookies(vs), v);
    assert (vs + [v])[..|vs|] == vs;
  }

  /** All kept cookies come out, "; " between them, exactly if no empty one comes before the rest. */
  lemma AllCookies(vs: seq<seq<Byte>>)
    ensures Spaced(Started(KeptCookies(vs))) == Spaced(KeptCookies(vs))
            <==> |KeptCookies(vs)| <= 1 || KeptCookies(vs)[0] != []
  {
    hide KeptCookies;
    var ks := KeptCookies(vs);
    if ks != [] && ks[0] == [] {
      StartedShorter(ks);
    }
  }

  lemma {:induction false} StartedShorter(vs: seq<seq<Byte>>)
    requires vs != [] && vs[0] == []
    ensures if |vs| > 1 then |Spaced(Started(vs))| < |Spaced(vs)| else Spaced(Started(vs)) == Spaced(vs)
  {
    if |vs| > 1 {
      SpacedTail(vs);
      if vs[1] == [] {
        StartedShorter(vs[1..]);
      }
    }
  }

  lemma {:induction false} SpacedTail(vs: seq<seq<Byte>>)
    requires |vs| > 1 && vs[0] == []
    ensures Spaced(vs) == [59, 32] + Spaced(vs[1..])
  {
    var n := |vs| - 1;
    assert vs[1..][..n - 1] == vs[..n][1..];
    if n == 1 {
      assert vs[..1] == [[]];
    } else {
      SpacedTail(vs[..n]);
    }
  }

  // ---------- All fields ----------

  /** h3_req_fields_t for the fields `es`. */
  function Summary(es: seq<Entry>): Fields {
    Fields(
      LastValue(es, Text(":method")),
      LastValue(es, Text(":path")),
      LastValue(es, Text(":authority")),
      LastValue(es, Text("host")),
      Spaced(Started(KeptCookies(Values(es, Text("cookie"))))),
      HeaderLines(es))
  }

  /** Every field is proper and the header lines have room together. */
  predicate AllProper(es: seq<Entry>) {
    (forall i :: 0 <= i < |es| ==> Proper(es[i])) && |HeaderLines(es)| < HEADERS_CAP
  }

  lemma SpecialNames()
    ensures Text(":authority")[0] == 58 && Text(":path")[0] == 58 && Text(":method")[0] == 58
    ensures Text("host")[0] == 104 && Text("cookie")[0] == 99
    ensures |Text(":authority")| == 10 && |Text(":path")| == 5 && |Text(":method")| == 7
  {
  }

  lemma OneMoreField(es: seq<Entry>, e: Entry)
    ensures forall name :: LastValue(es + [e], name) == if e.name == name then e.value else LastValue(es, name)
    ensures forall name :: Values(es + [e], name) == Values(es, name) + if e.name == name then [e.value] else []
    ensures HeaderLines(es + [e])
            == HeaderLines(es) + if IsPseudo(e) || e.name == Text("host") then [] else LineOf(e)
  {
    assert (es + [e])[..|es|] == es;
  }

  lemma ProperMore(es: seq<Entry>, e: Entry)
    requires AllProper(es)
    ensures AllProper(es + [e]) <==> Proper(e) && |HeaderLines(es + [e])| < HEADERS_CAP
    ensures |HeaderLines(es)| < HEADERS_CAP
  {
    hide Proper, HeaderLines;
    if AllProper(es + [e]) {
      assert (es + [e])[|es|] == e;
    }
  }

  /** qd_keep takes the summary of the fields so far to that with one more. */
  lemma KeepOneMore(es: seq<Entry>, e: Entry)
    requires AllProper(es)
    ensures Keep(Summary(es), e.name, e.value) == if AllProper(es + [e]) then Some(Summary(es + [e])) else None
  {
    hide AllProper, Text, NameOk, OneLine, LowerToken, HeaderLine, LineOf, LastValue, Values, HeaderLines, KeptCookies,
      Spaced, Started, JoinCookie;
    NameOkExactly(e.name);
    OneLineExactly(e.value);
    LineOfExactly(e);
    SpecialNames();
    OneMoreField(es, e);
    ProperMore(es, e);
    assert HeaderLines(es) + [] == HeaderLines(es);
    var vs := Values(es, Text("cookie"));
    assert vs + [] == vs;
    CookiesJoin(vs, e.value);
  }

  lemma NothingYet()
    ensures AllProper([]) && Summary([]) == NO_FIELDS
  {
  }

  lemma ProperPrefix(es: seq<Entry>, e: Entry, rest: seq<Entry>)
    requires AllProper(es + ([e] + rest))
    ensures AllProper(es + [e])
  {
    hide Proper, HeaderLines;
    var all := es + ([e] + rest);
    assert all[..|es| + 1] == es + [e];
    assert forall i :: 0 <= i <= |es| ==> (es + [e])[i] == all[i];
    HeaderLinesGrow(all, |es| + 1);
  }

  lemma {:induction false} HeaderLinesGrow(es: seq<Entry>, k: nat)
    requires k <= |es|
    ensures |HeaderLines(es[..k])| <= |HeaderLines(es)|
  {
    hide LineOf;
    if k < |es| {
      HeaderLinesGrow(es[..|es| - 1], k);
      assert es[..|es| - 1][..k] == es[..k];
    } else {
      assert es[..k] == es;
    }
  }
}
