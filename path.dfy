/**
 * Hierarchical derivation paths in the textual notation of BIP-0032
 * (`m/44'/501'/0'/0'`): a list of segments, each an index with a hardened
 * marker, rendered with `/` separators and read back by a parser.
 */
module DerivationPath {
  import opened Wrappers
  import opened Decimal

  datatype Segment = Segment(index: nat, hardened: bool)

  /** Purpose level of BIP-0044 paths. */
  const Purpose: nat := 44
  /** Coin type registered for Solana in SLIP-0044. */
  const SolanaCoinType: nat := 501

  /**
   * The account path the wallet derives for account `account`:
   * purpose / coin type / account / change, every level hardened.
   */
  function SolanaSegments(account: nat): seq<Segment> {
    [Segment(Purpose, true), Segment(SolanaCoinType, true), Segment(account, true), Segment(0, true)]
  }

  /**
   * The path string the wallet builds with its template literal: the
   * rendering of the Solana account path.
   */
  function SolanaPath(account: nat): (p: string)
    ensures p == Render(SolanaSegments(account))
  {
    TemplateIsRendered(account);
    "m/44'/501'/" + Dec(account) + "'/0'"
  }

  function RenderSegment(s: Segment): (t: string)
    ensures |t| >= 1 && '/' !in t
  {
    Dec(s.index) + (if s.hardened then "'" else "")
  }

  function RenderSegments(p: seq<Segment>): string {
    if |p| == 0 then "" else "/" + RenderSegment(p[0]) + RenderSegments(p[1..])
  }

  /** A path: the master-key marker `m` followed by `/segment` per level. */
  function Render(p: seq<Segment>): string {
    "m" + RenderSegments(p)
  }

  /** Puts a `/` between consecutive parts. */
  function Join(parts: seq<string>): string
    requires |parts| >= 1
  {
    if |parts| == 1 then parts[0] else parts[0] + "/" + Join(parts[1..])
  }

  /**
   * Splits a string at every `/`: `n` separators give `n + 1` parts, none
   * containing a separator, and joining them back gives the string.
   */
  function Split(s: string): (parts: seq<string>)
    ensures |parts| >= 1
    ensures forall k :: 0 <= k < |parts| ==> '/' !in parts[k]
    ensures Join(parts) == s
  {
    if |s| == 0 then [""]
    else if s[0] == '/' then
      var rest := Split(s[1..]);
      assert "" + "/" + Join(rest) == s;
      [""] + rest
    else
      var rest := Split(s[1..]);
      var parts := [[s[0]] + rest[0]] + rest[1..];
      assert parts[1..] == rest[1..];
      assert |rest| > 1 ==> Join(parts) == [s[0]] + (rest[0] + "/" + Join(rest[1..]));
      assert s == [s[0]] + s[1..];
      parts
  }

  /** One segment: a numeral, optionally followed by the hardened marker. */
  function ParseSegment(t: string): (r: Option<Segment>)
    ensures r.Some? ==> |t| >= 1
  {
    if 1 < |t| && t[|t| - 1] == '\'' && AllDigits(t[..|t| - 1]) then
      Some(Segment(ParseDec(t[..|t| - 1]), true))
    else if 0 < |t| && AllDigits(t) then
      Some(Segment(ParseDec(t), false))
    else
      None
  }

  function ParseSegments(ts: seq<string>): (r: Option<seq<Segment>>)
    ensures r.Some? ==> |r.value| == |ts|
  {
    if |ts| == 0 then Some([])
    else match (ParseSegment(ts[0]), ParseSegments(ts[1..]))
      case (Some(x), Some(xs)) => Some([x] + xs)
      case _ => None
  }

  /** Reads a path back; anything not of the form `m(/segment)*` is an error. */
  function ParsePath(p: string): Option<seq<Segment>> {
    var parts := Split(p);
    if parts[0] == "m" then ParseSegments(parts[1..]) else None
  }

  function RenderedParts(p: seq<Segment>): (ts: seq<string>)
    ensures |ts| == |p|
  {
    if |p| == 0 then [] else [RenderSegment(p[0])] + RenderedParts(p[1..])
  }

  /** Text without a separator joins the first part of what follows it. */
  lemma {:induction false} SplitPrefix(a: string, b: string)
    requires '/' !in a
    ensures Split(a + b) == [a + Split(b)[0]] + Split(b)[1..]
    decreases |a|
  {
    var sb := Split(b);
    if |a| == 0 {
      assert a + b == b;
      assert a + sb[0] == sb[0];
      assert sb == [sb[0]] + sb[1..];
    } else {
      var ab := a + b;
      assert ab[0] == a[0] && a[0] != '/';
      assert ab[1..] == a[1..] + b;
      assert '/' !in a[1..];
      SplitPrefix(a[1..], b);
      var rest := Split(ab[1..]);
      assert rest == [a[1..] + sb[0]] + sb[1..];
      assert Split(ab) == [[ab[0]] + rest[0]] + rest[1..];
      assert [a[0]] + (a[1..] + sb[0]) == a + sb[0];
    }
  }

  lemma SplitSeparatorFirst(b: string)
    ensures Split("/" + b) == [""] + Split(b)
  {
    var sb := "/" + b;
    assert sb[0] == '/' && sb[1..] == b;
  }

  /** A separator after separator-free text ends the first part there. */
  lemma SplitAtSeparator(a: string, b: string)
    requires '/' !in a
    ensures Split(a + ("/" + b)) == [a] + Split(b)
  {
    SplitSeparatorFirst(b);
    SplitPrefix(a, "/" + b);
    assert a + "" == a;
  }

  lemma RenderSegmentsCons(p: seq<Segment>)
    requires |p| > 0
    ensures RenderSegments(p) == "/" + (RenderSegment(p[0]) + RenderSegments(p[1..]))
  {
  }

  lemma {:induction false} SplitRendered(a: string, p: seq<Segment>)
    requires '/' !in a
    ensures Split(a + RenderSegments(p)) == [a] + RenderedParts(p)
    decreases |p|
  {
    if |p| == 0 {
      assert a + RenderSegments(p) == a + "";
      SplitPrefix(a, "");
      assert a + "" == a;
    } else {
      var t := RenderSegment(p[0]);
      var tail := RenderSegments(p[1..]);
      RenderSegmentsCons(p);
      SplitAtSeparator(a, t + tail);
      SplitRendered(t, p[1..]);
      assert RenderedParts(p) == [t] + RenderedParts(p[1..]);
    }
  }

  lemma ParseRenderedSegment(s: Segment)
    ensures ParseSegment(RenderSegment(s)) == Some(s)
  {
    var t := RenderSegment(s);
    ParseDecOfDec(s.index);
    if s.hardened {
      assert t[..|t| - 1] == Dec(s.index);
    } else {
      assert t == Dec(s.index);
    }
  }

  lemma {:induction false} ParseRenderedParts(p: seq<Segment>)
    ensures ParseSegments(RenderedParts(p)) == Some(p)
    decreases |p|
  {
    if |p| > 0 {
      var ts := RenderedParts(p);
      assert ts[0] == RenderSegment(p[0]);
      assert ts[1..] == RenderedParts(p[1..]);
      ParseRenderedSegment(p[0]);
      ParseRenderedParts(p[1..]);
      assert ParseSegments(ts) == Some([p[0]] + p[1..]);
      assert [p[0]] + p[1..] == p;
    }
  }

  /** Parsing a rendered path gives the path back. */
  lemma RenderRoundTrip(p: seq<Segment>)
    ensures ParsePath(Render(p)) == Some(p)
  {
    SplitRendered("m", p);
    ParseRenderedParts(p);
    assert Split(Render(p))[1..] == RenderedParts(p);
  }

  /** Distinct paths have distinct renderings. */
  lemma RenderInjective(p: seq<Segment>, q: seq<Segment>)
    ensures Render(p) == Render(q) ==> p == q
  {
    RenderRoundTrip(p);
    RenderRoundTrip(q);
  }

  /** The wallet's template literal is the rendering of the Solana account path. */
  lemma TemplateIsRendered(account: nat)
    ensures "m/44'/501'/" + Dec(account) + "'/0'" == Render(SolanaSegments(account))
  {
    var p := SolanaSegments(account);
    var d := Dec(account);
    assert Dec(0) == "0";
    assert Dec(4) == "4" && Dec(44) == Dec(4) + "4";
    assert Dec(5) == "5" && Dec(50) == Dec(5) + "0" && Dec(501) == Dec(50) + "1";
    assert RenderSegment(p[0]) == "44'" && RenderSegment(p[1]) == "501'";
    assert RenderSegment(p[2]) == d + "'" && RenderSegment(p[3]) == "0'";
    var r3 := RenderSegments(p[3..]);
    RenderSegmentsCons(p[3..]);
    assert p[3..][1..] == [];
    assert r3 == "/0'";
    var r2 := RenderSegments(p[2..]);
    RenderSegmentsCons(p[2..]);
    assert p[2..][1..] == p[3..];
    assert r2 == "/" + (d + "'" + "/0'");
    var r1 := RenderSegments(p[1..]);
    RenderSegmentsCons(p[1..]);
    assert p[1..][1..] == p[2..];
    assert r1 == "/" + ("501'" + r2);
    RenderSegmentsCons(p);
    assert RenderSegments(p) == "/" + ("44'" + r1);
    StringAssoc(d);
  }

  lemma StringAssoc(d: string)
    ensures "m/44'/501'/" + d + "'/0'" == "m" + ("/" + ("44'" + ("/" + ("501'" + ("/" + (d + "'" + "/0'"))))))
  {
  }

  /**
   * The account path has exactly four levels, 44 / 501 / account / 0, and
   * every one of them is hardened.
   */
  lemma SolanaPathParses(account: nat)
    ensures ParsePath(SolanaPath(account)) == Some(SolanaSegments(account))
    ensures var p := ParsePath(SolanaPath(account)).value;
      |p| == 4 && p[0].index == 44 && p[1].index == 501 && p[2].index == account && p[3].index == 0
      && forall k :: 0 <= k < |p| ==> p[k].hardened
  {
    RenderRoundTrip(SolanaSegments(account));
  }

  /** No two accounts share a derivation path. */
  lemma SolanaPathInjective(i: nat, j: nat)
    ensures SolanaPath(i) == SolanaPath(j) <==> i == j
  {
    SolanaPathParses(i);
    SolanaPathParses(j);
  }
}
