/** What the address parser accepts and what it returns: canonical forms of both
    families, and the IPv6 print/parse inverse. */
module AddressText {
  import opened Options
  import opened Text
  import opened ReverseName

  /* ------------------------------------------------------ character classes */

  /** Neither white space nor upper case: trim and toLowerCase leave it alone. */
  predicate Plain(s: string) {
    forall i :: 0 <= i < |s| ==> !IsSpace(s[i]) && !('A' <= s[i] <= 'Z')
  }

  lemma PlainIsFixed(s: string)
    requires Plain(s)
    ensures Trim(s) == s && Lower(s) == s
  {
    hide Trim, IsSpace;
    forall i | 0 <= i < |s| ensures Lower(s)[i] == s[i] { PlainChar(s, i); }
    assert Trimmed(s);
  }

  lemma PlainChar(s: string, i: nat)
    requires Plain(s) && i < |s|
    ensures LowerChar(s[i]) == s[i] && !IsSpace(s[i])
  {}

  predicate AllPlain(parts: seq<string>) {
    forall i :: 0 <= i < |parts| ==> Plain(parts[i])
  }

  lemma {:induction false} PlainJoin(parts: seq<string>, sep: string)
    requires AllPlain(parts) && Plain(sep)
    ensures Plain(Join(parts, sep))
  {
    if |parts| > 1 { PlainJoin(parts[1..], sep); }
  }

  lemma {:induction false} FreeJoin(parts: seq<string>, sep: string, c: char)
    requires AllFree(parts, c) && Free(sep, c)
    ensures Free(Join(parts, sep), c)
  {
    if |parts| > 1 { FreeJoin(parts[1..], sep, c); }
  }

  lemma FreeCons(c: char, s: string, d: char)
    ensures Free([c] + s, d) <==> c != d && Free(s, d)
  {
    var t := [c] + s;
    assert t[0] == c;
    assert forall i :: 0 <= i < |s| ==> s[i] == t[i + 1];
  }

  lemma AllFreeCons(p: string, r: seq<string>, d: char)
    ensures AllFree([p] + r, d) <==> Free(p, d) && AllFree(r, d)
  {
    hide Free;
    var q := [p] + r;
    assert q[0] == p;
    assert forall i :: 0 <= i < |r| ==> r[i] == q[i + 1];
  }

  lemma {:induction false} SplitKeeps(s: string, c: char, d: char)
    requires c != d
    ensures Free(s, d) <==> AllFree(Split(s, c), d)
  {
    if s == "" {
      assert Split(s, c)[0] == "";
    } else {
      SplitKeeps(s[1..], c, d);
      var r := Split(s[1..], c);
      assert s == [s[0]] + s[1..] && r == [r[0]] + r[1..];
      FreeCons(s[0], s[1..], d);
      assert Free("", d);
      hide Free, AllFree;
      if s[0] == c {
        AllFreeCons("", r, d);
      } else {
        FreeCons(s[0], r[0], d);
        AllFreeCons([s[0]] + r[0], r[1..], d);
        AllFreeCons(r[0], r[1..], d);
      }
    }
  }

  lemma {:induction false} SplitDoubleKeeps(s: string, d: char)
    requires d != ':'
    ensures Free(s, d) <==> AllFree(SplitDouble(s), d)
    decreases |s|
  {
    if |s| < 2 {
      assert SplitDouble(s)[0] == s;
    } else {
      assert s == [s[0]] + s[1..];
      FreeCons(s[0], s[1..], d);
      assert Free("", d);
      hide Free, AllFree;
      if s[0] == ':' && s[1] == ':' {
        SplitDoubleKeeps(s[2..], d);
        assert s[1..] == [s[1]] + s[2..];
        FreeCons(s[1], s[2..], d);
        AllFreeCons("", SplitDouble(s[2..]), d);
      } else {
        SplitDoubleKeeps(s[1..], d);
        var r := SplitDouble(s[1..]);
        assert r == [r[0]] + r[1..];
        FreeCons(s[0], r[0], d);
        AllFreeCons([s[0]] + r[0], r[1..], d);
        AllFreeCons(r[0], r[1..], d);
      }
    }
  }

  lemma {:induction false} ToHexLength(n: nat, k: nat)
    requires k >= 1 && n < Power16(k)
    ensures |ToHex(n)| <= k
  {
    if n >= 16 { ToHexLength(n / 16, k - 1); }
  }

  function Power16(k: nat): nat {
    if k == 0 then 1 else 16 * Power16(k - 1)
  }

  /* ------------------------------------------------------------------ IPv4 */

  /** An accepted dotted quad prints back, and printing parses back. */
  lemma Ipv4RoundTrip(octets: seq<nat>)
    requires |octets| == 4 && forall i :: 0 <= i < 4 ==> octets[i] < 256
    ensures var text := Join(Decimals(octets), ".");
            ParseIpv4(text) == Some(octets) && Split(text, '.') == Decimals(octets) && Plain(text)
  {
    hide Plain, AllPlain, Join, Split, Trim, Octet, ToDec, AllFree;
    var d := Decimals(octets);
    DecimalsPlain(octets);
    var text := Join(d, ".");
    PlainDot();
    PlainJoin(d, ".");
    PlainIsFixed(text);
    SplitJoin(d, '.');
    forall i | 0 <= i < 4 ensures Octet(d[i]) == Some(octets[i]) { OctetOfDecimal(octets[i]); }
    assert Octets(d).value == octets;
  }

  lemma PlainDot()
    ensures Plain(".") && Plain(":")
  {}

  lemma OctetOfDecimal(n: nat)
    requires n < 256
    ensures Octet(ToDec(n)) == Some(n) && ShortNumber(ToDec(n))
  {
    ParseToDec(n);
    ToDecLength(n);
  }

  lemma DecimalsPlain(octets: seq<nat>)
    ensures AllPlain(Decimals(octets)) && AllFree(Decimals(octets), '.')
  {}

  /** The text of an accepted quad, trimmed, is the canonical one: no other spelling
      of an IPv4 address is accepted. */
  lemma Ipv4SpellingUnique(text: string)
    requires ParseIpv4(text).Some?
    ensures Trim(text) == Join(Decimals(ParseIpv4(text).value), ".")
  {
    var parts, octets := Split(Trim(text), '.'), ParseIpv4(text).value;
    JoinSplit(Trim(text), '.');
    forall i | 0 <= i < 4 ensures parts[i] == Decimals(octets)[i] {
      assert Octet(parts[i]) == Some(octets[i]);
      ToDecParse(parts[i]);
    }
    assert parts == Decimals(octets);
  }

  /* --------------------------------------- when an IPv6 result is a hex string */

  /** No dot up to the last colon: dots only in an embedded dotted quad. */
  predicate DotsOnlyInTail(text: string) {
    var s := Lower(Trim(text));
    Free(s[..LastIndexOf(s, ':') + 1], '.')
  }

  predicate AllGroupSized(groups: seq<string>) {
    forall i :: 0 <= i < |groups| ==> GroupSized(groups[i])
  }

  /** Groups made of characters the parser lets through, colons split away. */
  predicate AllHexOrDot(groups: seq<string>) {
    forall i, j :: 0 <= i < |groups| && 0 <= j < |groups[i]| ==> IsHex(groups[i][j]) || groups[i][j] == '.'
  }

  predicate HexOrDot(s: string) {
    forall i :: 0 <= i < |s| ==> IsHex(s[i]) || s[i] == '.'
  }

  predicate AllHexGroups(groups: seq<string>) {
    forall i :: 0 <= i < |groups| ==> AllHex(groups[i])
  }

  lemma PadHex(g: string)
    ensures AllHex(PadZeros(g, 4)) <==> AllHex(g)
  {
    var p := PadZeros(g, 4);
    if |g| < 4 {
      assert forall j :: 0 <= j < |g| ==> p[4 - |g| + j] == g[j];
    }
  }

  lemma {:induction false} PaddedHex(groups: seq<string>)
    ensures AllHex(Padded(groups)) <==> AllHexGroups(groups)
  {
    if groups != [] {
      PaddedHex(groups[1..]);
      PadHex(groups[0]);
      var a, b := PadZeros(groups[0], 4), Padded(groups[1..]);
      assert AllHex(a + b) <==> AllHex(a) && AllHex(b) by {
        assert forall j :: 0 <= j < |a| ==> (a + b)[j] == a[j];
        assert forall j :: 0 <= j < |b| ==> (a + b)[|a| + j] == b[j];
      }
      assert forall i :: 1 <= i < |groups| ==> groups[i] == groups[1..][i - 1];
    }
  }

  lemma GroupsChars(part: string)
    requires AllIpv6Chars(part) && Groups(part).Some?
    ensures var g := Groups(part).value;
            AllGroupSized(g) && AllHexOrDot(g) && (AllHexGroups(g) <==> Free(part, '.'))
  {
    var g := Groups(part).value;
    if part != "" {
      SplitFree(part, ':');
      SplitKeeps(part, ':', '.');
      forall i, j | 0 <= i < |g| && 0 <= j < |g[i]| ensures Ipv6Char(g[i][j]) {
        var d := g[i][j];
        if !Ipv6Char(d) { SplitKeeps(part, ':', d); }
      }
      assert AllHexGroups(g) <==> AllFree(g, '.') by {
        forall i | 0 <= i < |g| ensures AllHex(g[i]) <==> Free(g[i], '.') {}
      }
    }
  }

  lemma HalvesChars(body: string)
    requires AllIpv6Chars(body)
    ensures var h := SplitDouble(body);
            (forall i :: 0 <= i < |h| ==> AllIpv6Chars(h[i])) && (Free(body, '.') <==> AllFree(h, '.'))
  {
    var h := SplitDouble(body);
    SplitDoubleKeeps(body, '.');
    forall i, j | 0 <= i < |h| && 0 <= j < |h[i]| ensures Ipv6Char(h[i][j]) {
      var d := h[i][j];
      if !Ipv6Char(d) { SplitDoubleKeeps(body, d); }
    }
  }

  lemma HexConcat(a: seq<string>, b: seq<string>)
    ensures AllHexGroups(a + b) <==> AllHexGroups(a) && AllHexGroups(b)
    ensures AllGroupSized(a + b) <==> AllGroupSized(a) && AllGroupSized(b)
    ensures AllHexOrDot(a) && AllHexOrDot(b) ==> AllHexOrDot(a + b)
  {
    assert forall j :: 0 <= j < |a| ==> (a + b)[j] == a[j];
    assert forall j :: 0 <= j < |b| ==> (a + b)[|a| + j] == b[j];
  }

  /** The eight groups the body and tail stand for, before padding. */
  function EightGroups(body: string, tail: seq<string>): seq<string>
    requires Assemble(body, tail).Some?
  {
    var halves := SplitDouble(body);
    if |halves| == 1 then Groups(halves[0]).value + tail
    else
      var head, rest := Groups(halves[0]).value, Groups(halves[1]).value;
      head + Repeat("0", 8 - (|head| + |rest| + |tail|)) + rest + tail
  }

  lemma AssembleGroups(body: string, tail: seq<string>)
    requires AllIpv6Chars(body) && AllGroupSized(tail) && AllHexGroups(tail)
    requires Assemble(body, tail).Some?
    ensures var g := EightGroups(body, tail);
            |g| == 8 && AllGroupSized(g) && AllHexOrDot(g) && Assemble(body, tail) == Some(Padded(g)) &&
            (AllHexGroups(g) <==> Free(body, '.'))
  {
    hide SplitDouble, Groups, Padded, AllHexGroups, AllGroupSized, AllHexOrDot, AllIpv6Chars;
    HexIsHexOrDot(tail);
    var halves := SplitDouble(body);
    HalvesCharsAt(body);
    GroupsChars(halves[0]);
    var head := Groups(halves[0]).value;
    if |halves| == 1 {
      HexConcat(head, tail);
    } else {
      GroupsChars(halves[1]);
      var rest := Groups(halves[1]).value;
      var z := Repeat("0", 8 - (|head| + |rest| + |tail|));
      ZerosHex(|z|);
      HexConcat(head, z);
      HexConcat(head + z, rest);
      HexConcat(head + z + rest, tail);
    }
  }

  lemma HexIsHexOrDot(g: seq<string>)
    requires AllHexGroups(g)
    ensures AllHexOrDot(g)
  {}

  lemma ZerosHex(n: nat)
    ensures AllHexGroups(Repeat("0", n)) && AllGroupSized(Repeat("0", n)) && AllHexOrDot(Repeat("0", n))
  {}

  lemma HalvesCharsAt(body: string)
    requires AllIpv6Chars(body)
    ensures var h := SplitDouble(body);
            AllIpv6Chars(h[0]) &&
            (|h| == 1 ==> (Free(body, '.') <==> Free(h[0], '.'))) &&
            (|h| == 2 ==> AllIpv6Chars(h[1]) && (Free(body, '.') <==> Free(h[0], '.') && Free(h[1], '.')))
  {
    HalvesChars(body);
  }

  lemma QuadGroups(hi: nat, lo: nat)
    requires hi < 256 && lo < 256
    ensures GroupSized(ToHex(hi * 256 + lo))
  {
    assert Power16(4) == 65536 by { assert Power16(1) == 16; assert Power16(2) == 256; }
    ToHexLength(hi * 256 + lo, 4);
  }

  lemma DottedTailChars(s: string)
    requires AllIpv6Chars(s) && DottedTail(s).Some?
    ensures var (body, tail) := DottedTail(s).value;
            AllIpv6Chars(body) && AllGroupSized(tail) && AllHexGroups(tail) &&
            (Free(body, '.') <==> Free(s[..LastIndexOf(s, ':') + 1], '.'))
  {
    hide *;
    var lc := LastIndexOf(s, ':');
    var (body, tail) := DottedTail(s).value;
    DottedTailIs(s);
    if tail == [] {
      NoGroups();
      FreePrefix(s, lc + 1);
    } else {
      BodyChars(s, lc);
    }
  }

  /** The two shapes of a dotted tail. */
  lemma DottedTailIs(s: string)
    requires DottedTail(s).Some?
    ensures var (body, tail) := DottedTail(s).value;
            var lc := LastIndexOf(s, ':');
            if tail == [] then body == s && Free(s, '.')
            else lc >= 0 && AllGroupSized(tail) && AllHexGroups(tail) && (body == s[..lc] || body == s[..lc + 1])
  {
    hide ParseIpv4, ToHex, EndsWith, LastIndexOf;
    var lc := LastIndexOf(s, ':');
    var (body, tail) := DottedTail(s).value;
    if tail == [] {
      assert '.' !in s;
    } else {
      var v4 := ParseIpv4(s[lc + 1..]).value;
      QuadGroups(v4[0], v4[1]);
      QuadGroups(v4[2], v4[3]);
      assert s[..lc + 1][..lc] == s[..lc];
    }
  }

  lemma NoGroups()
    ensures AllGroupSized([]) && AllHexGroups([])
  {}

  lemma FreePrefix(s: string, i: nat)
    requires Free(s, '.') && i <= |s|
    ensures Free(s[..i], '.')
  {}

  lemma BodyChars(s: string, lc: nat)
    requires lc < |s| && s[lc] == ':'
    ensures Free(s[..lc], '.') <==> Free(s[..lc + 1], '.')
    ensures s[..lc + 1][..lc] == s[..lc]
    ensures AllIpv6Chars(s) ==> AllIpv6Chars(s[..lc]) && AllIpv6Chars(s[..lc + 1])
  {
    var a, b := s[..lc], s[..lc + 1];
    assert b == a + [':'];
    assert b[lc] == ':' && forall i :: 0 <= i < lc ==> b[i] == a[i];
  }

  /** Every accepted IPv6 text expands to 32 characters, and they are all hexadecimal
      digits exactly when no dot stands before the last colon. */
  lemma ExpandIsHexIff(text: string)
    requires ExpandIpv6(text).Some?
    ensures |ExpandIpv6(text).value| == 32
    ensures AllHex(ExpandIpv6(text).value) <==> DotsOnlyInTail(text)
    ensures HexOrDot(ExpandIpv6(text).value)
  {
    hide Lower, Trim, DottedTail, Assemble, Padded, EightGroups, LastIndexOf;
    var s := Lower(Trim(text));
    DottedTailChars(s);
    var (body, tail) := DottedTail(s).value;
    AssembleGroups(body, tail);
    var g := EightGroups(body, tail);
    PaddedHex(g);
    PaddedLength(g);
    PaddedHexOrDot(g);
  }

  lemma {:induction false} PaddedHexOrDot(g: seq<string>)
    requires AllHexOrDot(g)
    ensures HexOrDot(Padded(g))
  {
    if g != [] { PaddedHexOrDot(g[1..]); }
  }

  lemma PaddedLength(g: seq<string>)
    requires AllGroupSized(g)
    ensures |Padded(g)| == 4 * |g|
  {}

  /** The check for dots looks at the tail only: a dot in an earlier group comes through. */
  lemma DottedGroupAccepted()
    ensures ExpandIpv6("::1.2:1.2.3.4").Some? && !DotsOnlyInTail("::1.2:1.2.3.4")
    ensures !AllHex(ExpandIpv6("::1.2:1.2.3.4").value)
  {
    hide Trim, Lower, LastIndexOf, DottedTail, Assemble;
    var s := "::1.2:1.2.3.4";
    PlainIsFixed(s);
    LastColonExample(s);
    assert s[..6][3] == '.';
    TailExample(s);
    BodyExample(DottedTail(s).value.1);
    ExpandIsHexIff(s);
  }

  lemma LastColonExample(s: string)
    requires s == "::1.2:1.2.3.4"
    ensures LastIndexOf(s, ':') == 5 && AllIpv6Chars(s) && !TripleColon(s)
  {
    var i := LastIndexOf(s, ':');
    assert s[5] == ':';
    assert s[6] == '1' && s[7] == '.' && s[8] == '2' && s[9] == '.' && s[10] == '3' && s[11] == '.' && s[12] == '4';
  }

  lemma SliceExample(s: string)
    requires s == "::1.2:1.2.3.4"
    ensures s[6..] == "1.2.3.4" && '.' in s[6..]
    ensures s[..6] == "::1.2:" && s[..6][..5] == "::1.2" && !EndsWith(s[..6], "::")
  {
    assert s[6..][1] == '.';
    assert s[..6][4..][0] == '2';
  }

  lemma TailExample(s: string)
    requires s == "::1.2:1.2.3.4"
    ensures DottedTail(s).Some? && DottedTail(s).value.0 == "::1.2" && |DottedTail(s).value.1| == 2
  {
    hide LastIndexOf, ToHex, ParseIpv4, EndsWith;
    LastColonExample(s);
    QuadExample();
    SliceExample(s);
  }

  lemma QuadExample()
    ensures ParseIpv4("1.2.3.4") == Some([1, 2, 3, 4])
  {
    assert ToDec(1) == "1" && ToDec(2) == "2" && ToDec(3) == "3" && ToDec(4) == "4";
    var d := Decimals([1, 2, 3, 4]);
    assert d == ["1", "2", "3", "4"] && d[1..] == ["2", "3", "4"] && d[1..][1..] == ["3", "4"];
    assert Join(["3", "4"], ".") == "3" + "." + Join(["4"], ".");
    assert Join(d, ".") == "1.2.3.4";
    Ipv4RoundTrip([1, 2, 3, 4]);
  }

  lemma BodyExample(tail: seq<string>)
    requires |tail| == 2
    ensures Assemble("::1.2", tail).Some?
  {
    SplitDoubleNone("1.2");
    assert "::1.2"[2..] == "1.2";
    assert SplitDouble("::1.2") == ["", "1.2"];
    SplitOfFree("1.2", ':');
  }

  /* ------------------------------------------------- IPv6 print and parse */

  /** No two adjacent colons. */
  predicate SingleColons(s: string) {
    forall i :: 0 <= i < |s| - 1 ==> !(s[i] == ':' && s[i + 1] == ':')
  }

  lemma SingleColonsTail(s: string)
    requires SingleColons(s) && s != ""
    ensures SingleColons(s[1..])
  {
    var t := s[1..];
    forall i | 0 <= i < |t| - 1 ensures !(t[i] == ':' && t[i + 1] == ':') {
      assert t[i] == s[i + 1] && t[i + 1] == s[i + 1 + 1];
    }
  }

  lemma {:induction false} SplitDoubleNone(s: string)
    requires SingleColons(s)
    ensures SplitDouble(s) == [s]
  {
    if |s| >= 2 {
      assert !(s[0] == ':' && s[0 + 1] == ':');
      SingleColonsTail(s);
      SplitDoubleNone(s[1..]);
      assert [s[0]] + s[1..] == s;
    }
  }

  /** Text that neither begins nor ends with a colon nor holds two in a row. */
  predicate Inside(s: string) {
    s != "" && s[0] != ':' && s[|s| - 1] != ':' && SingleColons(s)
  }

  lemma {:induction false} SplitDoubleOnce(a: string, b: string)
    requires (a == "" || Inside(a)) && SingleColons(b)
    ensures SplitDouble(a + "::" + b) == [a, b]
    decreases |a|
  {
    SplitFrom(a, b);
    SplitDoubleNone(b);
  }

  lemma {:induction false} SplitFrom(a: string, b: string)
    requires SingleColons(a) && (a == "" || a[|a| - 1] != ':')
    ensures SplitDouble(a + "::" + b) == [a] + SplitDouble(b)
  {
    var s := a + "::" + b;
    if a == "" {
      assert s[2..] == b;
    } else {
      assert s[1..] == a[1..] + "::" + b;
      if |a| >= 2 { assert s[1] == a[1] && !(a[0] == ':' && a[0 + 1] == ':'); } else { assert s[0] == a[0]; }
      SingleColonsTail(a);
      SplitFrom(a[1..], b);
      assert [a[0]] + a[1..] == a;
      var r := SplitDouble(s[1..]);
      assert r[0] == a[1..] && r[1..] == SplitDouble(b);
    }
  }

  /** What printing produces: nonempty groups of at most four hex digits. */
  predicate PrintedGroups(groups: seq<string>) {
    forall i :: 0 <= i < |groups| ==> GroupSized(groups[i]) && AllHex(groups[i])
  }

  lemma {:induction false} JoinInside(groups: seq<string>)
    requires |groups| >= 1 && PrintedGroups(groups)
    ensures Inside(Join(groups, ":"))
  {
    var g := groups[0];
    assert forall i :: 0 <= i < |g| ==> g[i] != ':';
    if |groups| > 1 {
      var r := Join(groups[1..], ":");
      assert PrintedGroups(groups[1..]);
      JoinInside(groups[1..]);
      var s := Join(groups, ":");
      assert s == g + ":" + r;
      forall i | 0 <= i < |s| - 1 ensures !(s[i] == ':' && s[i + 1] == ':') {
        if i < |g| { assert s[i] == g[i]; }
        else if i == |g| { assert s[i + 1] == r[0]; }
        else { assert s[i] == r[i - |g| - 1] && s[i + 1] == r[i - |g| - 1 + 1]; }
      }
    }
  }

  lemma {:induction false} JoinChars(groups: seq<string>)
    requires PrintedGroups(groups)
    ensures Plain(Join(groups, ":")) && AllIpv6Chars(Join(groups, ":")) && Free(Join(groups, ":"), '.')
  {
    if |groups| > 1 {
      assert PrintedGroups(groups[1..]);
      JoinChars(groups[1..]);
    }
  }

  lemma GroupsOfJoin(groups: seq<string>)
    requires PrintedGroups(groups)
    ensures Groups(Join(groups, ":")) == Some(groups)
  {
    if |groups| >= 1 {
      JoinInside(groups);
      assert AllFree(groups, ':');
      SplitJoin(groups, ':');
    }
  }

  /** The run lies in the groups and holds zero groups only. */
  ghost predicate RunOfZeros(groups: seq<string>, run: Run) {
    0 <= run.start && run.start + run.len <= |groups| &&
    forall i :: run.start <= i < run.start + run.len ==> groups[i] == "0"
  }

  lemma NoTriple(a: string, b: string)
    requires (a == "" || Inside(a)) && (b == "" || Inside(b))
    ensures !TripleColon(a + "::" + b)
  {
    var s := a + "::" + b;
    forall i | 0 <= i < |s| - 2 ensures !(s[i] == ':' && s[i + 1] == ':' && s[i + 2] == ':') {
      if i + 1 < |a| { assert s[i] == a[i] && s[i + 1] == a[i + 1]; }
      else if i + 1 == |a| { assert s[i] == a[i]; }
      else if i == |a| { assert s[i + 2] == b[0]; }
      else if i == |a| + 1 { assert s[i + 1] == b[0]; }
      else { assert s[i] == b[i - |a| - 2] && s[i + 1] == b[i - |a| - 2 + 1]; }
    }
  }

  lemma NoTripleInside(s: string)
    requires SingleColons(s)
    ensures !TripleColon(s)
  {
    forall i | 0 <= i < |s| - 2 ensures !(s[i] == ':' && s[i + 1] == ':' && s[i + 2] == ':') {
      assert !(s[i] == ':' && s[i + 1] == ':');
    }
  }

  lemma NoDottedTail(s: string)
    requires Free(s, '.')
    ensures DottedTail(s) == Some((s, []))
  {
    hide ParseIpv4, ToHex, EndsWith;
    assert '.' !in s[LastIndexOf(s, ':') + 1..];
  }

  lemma NoDots(s: string)
    requires s != "" && Plain(s) && AllIpv6Chars(s) && Free(s, '.') && !TripleColon(s)
    ensures ExpandIpv6(s) == Assemble(s, [])
  {
    hide Trim, Lower, Assemble, TripleColon, DottedTail, Plain, AllIpv6Chars, Free;
    PlainIsFixed(s);
    NoDottedTail(s);
  }

  lemma ParseUncompressed(groups: seq<string>)
    requires |groups| == 8 && PrintedGroups(groups)
    ensures ExpandIpv6(Join(groups, ":")) == Some(Padded(groups))
  {
    hide Plain, AllIpv6Chars, PrintedGroups, Join, TripleColon, Groups, SplitDouble, ExpandIpv6, Padded;
    var s := Join(groups, ":");
    JoinInside(groups);
    JoinChars(groups);
    NoTripleInside(s);
    NoDots(s);
    SplitDoubleNone(s);
    GroupsOfJoin(groups);
    assert groups + [] == groups;
  }

  lemma DoubleChars(a: string, b: string)
    requires Plain(a) && AllIpv6Chars(a) && Free(a, '.') && Plain(b) && AllIpv6Chars(b) && Free(b, '.')
    ensures var s := a + "::" + b; Plain(s) && AllIpv6Chars(s) && Free(s, '.')
  {}

  lemma PrintedSlice(groups: seq<string>, i: nat, j: nat)
    requires PrintedGroups(groups) && i <= j <= |groups|
    ensures PrintedGroups(groups[i..j])
  {}

  lemma ParseCompressed(groups: seq<string>, run: Run)
    requires |groups| == 8 && PrintedGroups(groups) && run.len >= 2 && RunOfZeros(groups, run)
    ensures ExpandIpv6(Compressed(groups, run)) == Some(Padded(groups))
  {
    hide PrintedGroups, ExpandIpv6, Padded, Join;
    var i, j := run.start, run.start + run.len;
    PrintedSlice(groups, 0, i);
    PrintedSlice(groups, j, |groups|);
    ZeroMiddle(groups, i, j);
    ParseTwoHalves(groups[0..i], groups[j..|groups|], run.len);
    assert groups[..i] == groups[0..i] && groups[j..] == groups[j..|groups|];
  }

  lemma ZeroMiddle(groups: seq<string>, i: nat, j: nat)
    requires i <= j <= |groups| && forall k :: i <= k < j ==> groups[k] == "0"
    ensures groups[0..i] + Repeat("0", j - i) + groups[j..|groups|] == groups
  {}

  lemma ParseTwoHalves(h: seq<string>, t: seq<string>, n: nat)
    requires PrintedGroups(h) && PrintedGroups(t) && n >= 2 && |h| + n + |t| == 8
    ensures ExpandIpv6(Join(h, ":") + "::" + Join(t, ":")) == Some(Padded(h + Repeat("0", n) + t))
  {
    hide Plain, AllIpv6Chars, PrintedGroups, Join, TripleColon, Groups, SplitDouble, ExpandIpv6, Padded, Inside,
         Assemble;
    var a, b := Join(h, ":"), Join(t, ":");
    EmptyOrInside(h);
    EmptyOrInside(t);
    JoinChars(h);
    JoinChars(t);
    DoubleChars(a, b);
    NoTriple(a, b);
    NoDots(a + "::" + b);
    SplitDoubleOnce(a, b);
    GroupsOfJoin(h);
    GroupsOfJoin(t);
    AssembleTwo(a + "::" + b, h, t, []);
    AppendNothing(h + Repeat("0", n) + t);
  }

  lemma AssembleTwo(s: string, h: seq<string>, t: seq<string>, tail: seq<string>)
    requires var halves := SplitDouble(s); |halves| == 2 && Groups(halves[0]) == Some(h) && Groups(halves[1]) == Some(t)
    requires |h| + |t| + |tail| <= 7
    ensures Assemble(s, tail) == Some(Padded(h + Repeat("0", 8 - (|h| + |t| + |tail|)) + t + tail))
  {
    hide SplitDouble, Groups, Padded, Repeat;
  }

  lemma AppendNothing(s: seq<string>)
    ensures s + [] == s
  {}

  lemma EmptyOrInside(groups: seq<string>)
    requires PrintedGroups(groups)
    ensures var s := Join(groups, ":"); (s == "" || Inside(s)) && SingleColons(s)
  {
    if groups != [] { JoinInside(groups); }
  }

  /* The scan finds the leftmost longest run of zero groups. */

  ghost predicate IsZeroRun(groups: seq<string>, a: int, b: int) {
    0 <= a <= b <= |groups| && forall i :: a <= i < b ==> groups[i] == "0"
  }

  /** Of the runs inside the first `upTo` groups none is longer, and none as long starts earlier. */
  ghost predicate LeftmostLongest(groups: seq<string>, run: Run, upTo: nat) {
    (run.len > 0 ==> IsZeroRun(groups, run.start, run.start + run.len) && run.start + run.len <= upTo) &&
    forall a, b :: IsZeroRun(groups, a, b) && a < b <= upTo ==>
      b - a <= run.len && (b - a == run.len ==> run.start <= a)
  }

  lemma {:induction false} ScanFinds(groups: seq<string>, i: nat, best: Run)
    requires i <= |groups| && LeftmostLongest(groups, best, i)
    requires 0 < i < |groups| && groups[i] == "0" ==> groups[i - 1] != "0"
    ensures LeftmostLongest(groups, ScanRuns(groups, i, best), |groups|)
    decreases |groups| - i
  {
    if i == |groups| {
    } else if groups[i] != "0" {
      ScanSkip(groups, i, best);
      ScanFinds(groups, i + 1, best);
    } else {
      var j := RunEnd(groups, i);
      ScanRun(groups, i, best);
      ScanFinds(groups, j, if j - i > best.len then Run(i, j - i) else best);
    }
  }

  lemma ScanSkip(groups: seq<string>, i: nat, best: Run)
    requires i < |groups| && groups[i] != "0" && LeftmostLongest(groups, best, i)
    ensures LeftmostLongest(groups, best, i + 1)
  {
    forall a, b | IsZeroRun(groups, a, b) && a < b <= i + 1 ensures b <= i {
      assert groups[b - 1] == "0";
    }
  }

  lemma ScanRun(groups: seq<string>, i: nat, best: Run)
    requires i < |groups| && groups[i] == "0" && LeftmostLongest(groups, best, i)
    requires i > 0 ==> groups[i - 1] != "0"
    ensures var j := RunEnd(groups, i);
            i < j && LeftmostLongest(groups, if j - i > best.len then Run(i, j - i) else best, j)
  {
    var j := RunEnd(groups, i);
    var run := if j - i > best.len then Run(i, j - i) else best;
    assert IsZeroRun(groups, i, j);
    forall a, b | IsZeroRun(groups, a, b) && a < b <= j
      ensures b - a <= run.len && (b - a == run.len ==> run.start <= a)
    {
    }
  }

  /** Printing a 128-bit address and parsing the text gives the same 32 digits. The
      text is made of groups without leading zeros (section 4.1 of RFC 5952) and
      leaves out the leftmost longest run of two or more zero groups (section 4.2). */
  lemma Ipv6RoundTrip(hex: string)
    requires |hex| == 32 && AllHex(hex)
    ensures ExpandIpv6(Ipv6Text(hex)) == Some(hex)
    ensures var g := ShortGroups(hex);
            |g| == 8 && PrintedGroups(g) &&
            (forall i :: 0 <= i < 8 ==> |g[i]| > 1 ==> g[i][0] != '0') &&
            LeftmostLongest(g, LongestRun(g), 8) && Ipv6Text(hex) == Compressed(g, LongestRun(g))
  {
    var g := ShortGroups(hex);
    ShortGroupsPrinted(hex);
    ScanFinds(g, 0, Run(-1, 0));
    PaddedShort(hex);
    hide ExpandIpv6, Padded, ScanRuns, PrintedGroups;
    var run := LongestRun(g);
    if run.len >= 2 {
      assert IsZeroRun(g, run.start, run.start + run.len);
      ParseCompressed(g, run);
    } else {
      ParseUncompressed(g);
    }
  }

  lemma ShortGroupsPrinted(hex: string)
    requires |hex| == 32 && AllHex(hex)
    ensures PrintedGroups(ShortGroups(hex)) && |ShortGroups(hex)| == 8
    ensures forall i :: 0 <= i < 8 ==> PadZeros(ShortGroups(hex)[i], 4) == hex[4 * i..4 * i + 4]
  {
    forall i | 0 <= i < 8
      ensures GroupSized(ShortGroups(hex)[i]) && PadZeros(ShortGroups(hex)[i], 4) == hex[4 * i..4 * i + 4]
    {
      PadToHexParse(hex[4 * i..4 * i + 4]);
    }
  }

  lemma {:induction false} PaddedFrom(groups: seq<string>, hex: string, i: nat)
    requires |groups| == 8 && |hex| == 32 && i <= 8
    requires forall k :: 0 <= k < 8 ==> PadZeros(groups[k], 4) == hex[4 * k..4 * k + 4]
    ensures Padded(groups[i..]) == hex[4 * i..]
    decreases 8 - i
  {
    if i < 8 {
      PaddedFrom(groups, hex, i + 1);
      assert groups[i..][1..] == groups[i + 1..];
      assert hex[4 * i..] == hex[4 * i..4 * i + 4] + hex[4 * (i + 1)..];
    }
  }

  lemma PaddedShort(hex: string)
    requires |hex| == 32 && AllHex(hex)
    ensures Padded(ShortGroups(hex)) == hex
  {
    ShortGroupsPrinted(hex);
    PaddedFrom(ShortGroups(hex), hex, 0);
    assert ShortGroups(hex)[0..] == ShortGroups(hex) && hex[0..] == hex;
  }
}
