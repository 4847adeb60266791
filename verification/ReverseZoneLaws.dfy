/** What the choice of the reverse zone guarantees: it is sound, complete and most
    specific, and its owner name leads back to the address. */
module ReverseZoneLaws {
  import opened Options
  import opened Text
  import Bits
  import opened ReverseName
  import opened AddressText

  /* --------------------------------------------------- the hosted names */

  /** Some listed name has this canonical spelling. */
  predicate Listed(zones: seq<string>, z: string) {
    exists i :: 0 <= i < |zones| && CanonicalZone(zones[i]) == z
  }

  lemma ListedStep(init: seq<string>, last: string, z: string)
    ensures Listed(init + [last], z) <==> Listed(init, z) || CanonicalZone(last) == z
  {
    hide CanonicalZone;
    var zones := init + [last];
    if Listed(init, z) {
      var i :| 0 <= i < |init| && CanonicalZone(init[i]) == z;
      assert zones[i] == init[i];
    }
    assert zones[|init|] == last;
  }

  lemma {:induction false} HostedMember(zones: seq<string>, z: string)
    ensures z in Hosted(zones) <==> Listed(zones, z)
  {
    hide CanonicalZone, Listed;
    if zones == [] {
      NoneListed(z);
    } else {
      var n := |zones| - 1;
      HostedMember(zones[..n], z);
      ListedStep(zones[..n], zones[n], z);
      assert zones == zones[..n] + [zones[n]];
    }
  }

  lemma NoneListed(z: string)
    ensures !Listed([], z)
  {}

  /** A zone's canonical spelling: without surrounding space, in lower case, with one final dot. */
  lemma CanonicalZoneIs(name: string) returns (left: string, labels: string, dots: string, right: string)
    ensures name == left + labels + dots + right && AllSpace(left) && AllSpace(right) && Trimmed(labels + dots)
    ensures (forall i :: 0 <= i < |dots| ==> dots[i] == '.') && (labels == "" || labels[|labels| - 1] != '.')
    ensures CanonicalZone(name) == Lower(labels) + "."
  {
    hide Trim, IsSpace, StripDots;
    left, right := TrimIs(name);
    var t := Trim(name);
    StripDotsIs(Lower(t));
    var n := |StripDots(Lower(t))|;
    labels, dots := t[..n], t[n..];
    assert t == labels + dots && Lower(labels) == Lower(t)[..n];
    forall i | 0 <= i < |dots| ensures dots[i] == '.' { assert Lower(t)[n..][i] == '.'; }
  }

  lemma {:induction false} StripDotsIs(s: string)
    ensures forall i :: |StripDots(s)| <= i < |s| ==> s[i] == '.'
  {
    if s != "" && s[|s| - 1] == '.' { StripDotsIs(s[..|s| - 1]); }
  }

  lemma CanonicalZoneLower(name: string)
    ensures Lower(CanonicalZone(name)) == CanonicalZone(name)
  {
    hide Trim, LowerChar;
    var l := Lower(Trim(name));
    LowerIdempotent(Trim(name));
    var s := StripDots(l);
    forall i | 0 <= i < |s| ensures LowerChar(s[i]) == s[i] { assert s[i] == l[i] == Lower(l)[i]; }
    LowerDot();
  }

  lemma LowerDot()
    ensures LowerChar('.') == '.'
  {}

  /* --------------------------------- suffixes of an owner at a label boundary */

  /** A nonempty name under which the owner lies. */
  predicate ProperSuffix(owner: string, zone: string) {
    zone != "" && EndsWith(owner, "." + zone)
  }

  lemma {:induction false} LongerTail(q: seq<string>, i: nat, j: nat)
    requires i <= j < |q|
    ensures |Join(q[j..], ".")| <= |Join(q[i..], ".")|
    decreases j - i
  {
    if i < j {
      LongerTail(q, i + 1, j);
      assert q[i..][1..] == q[i + 1..];
    }
  }

  lemma {:induction false} WalkFinds(labels: seq<string>, i: nat, hosted: seq<string>) returns (j: nat)
    requires i <= |labels|
    ensures var r := WalkSuffixes(labels, i, hosted);
            if r.None? then forall l :: i <= l < |labels| - 1 ==> Join(labels[l..], ".") !in hosted
            else i <= j < |labels| - 1 && r.value == Join(labels[j..], ".") && r.value in hosted &&
                 forall l :: i <= l < j ==> Join(labels[l..], ".") !in hosted
    decreases |labels| - i
  {
    hide Join;
    j := i;
    if i + 1 < |labels| && Join(labels[i..], ".") !in hosted {
      j := WalkFinds(labels, i + 1, hosted);
    }
  }

  predicate EndsInDot(owner: string) {
    owner != "" && owner[|owner| - 1] == '.'
  }

  /** The walk returns the longest hosted name under which the owner lies. */
  lemma WalkIsLongest(owner: string, hosted: seq<string>)
    requires EndsInDot(owner)
    ensures var r := WalkSuffixes(Split(owner, '.'), 1, hosted);
            (r.None? <==> forall z :: z in hosted ==> !ProperSuffix(owner, z)) &&
            (r.Some? ==> r.value in hosted && ProperSuffix(owner, r.value) &&
                         forall z :: z in hosted && ProperSuffix(owner, z) ==> |z| <= |r.value|)
  {
    hide ProperSuffix, Split, Join, WalkSuffixes;
    var q := Split(owner, '.');
    var j := WalkFinds(q, 1, hosted);
    var r := WalkSuffixes(q, 1, hosted);
    if r.Some? { AtSuffix(owner, j); }
    forall z | z in hosted && ProperSuffix(owner, z) ensures r.Some? && |z| <= |r.value| {
      var l := SuffixAt(owner, z);
      assert Join(q[l..], ".") in hosted;
      LongerTail(q, j, l);
    }
  }

  lemma SuffixAt(owner: string, z: string) returns (j: nat)
    requires EndsInDot(owner) && ProperSuffix(owner, z)
    ensures 1 <= j < |Split(owner, '.')| - 1 && Join(Split(owner, '.')[j..], ".") == z
  {
    hide Split, Join;
    var q := Split(owner, '.');
    j := SuffixIsLabels(owner, z);
    if j == |q| - 1 {
      LastLabel(owner, z, q);
    }
  }

  lemma LastLabel(owner: string, z: string, q: seq<string>)
    requires EndsInDot(owner) && ProperSuffix(owner, z) && q == Split(owner, '.')
    ensures Join(q[|q| - 1..], ".") != z
  {
    assert q[|q| - 1..] == [q[|q| - 1]];
    SplitFree(owner, '.');
    var d := "." + z;
    assert owner[|owner| - 1] == d[|d| - 1] == z[|z| - 1];
    assert z[|z| - 1] == '.';
  }

  lemma AtSuffix(owner: string, j: nat)
    requires 1 <= j < |Split(owner, '.')| - 1
    ensures ProperSuffix(owner, Join(Split(owner, '.')[j..], "."))
  {
    hide Split;
    var q := Split(owner, '.');
    LabelsAreSuffix(owner, j);
    assert |q[j..]| >= 2;
  }

  /* ------------------------------------------------ the two kinds of address */

  predicate ValidOctets(o: seq<nat>) {
    |o| == 4 && forall i :: 0 <= i < 4 ==> o[i] < 256
  }

  function Quad(o: seq<nat>): ParsedIp {
    ParsedIp(4, Join(Decimals(o), "."))
  }

  /** What the parser returns: a dotted quad, or 32 characters that are hex or dots. */
  ghost predicate IsAddress(p: ParsedIp) {
    (p.family == 4 && exists o :: ValidOctets(o) && p == Quad(o)) ||
    (p.family == 6 && |p.canonical| == 32 && HexOrDot(p.canonical))
  }

  lemma ParsedIsAddress(ip: string)
    requires ParseIp(ip).Some?
    ensures IsAddress(ParseIp(ip).value)
    ensures ParseIp(ip).value.family == 6 ==> (AllHex(ParseIp(ip).value.canonical) <==> DotsOnlyInTail(ip))
    ensures ParseIp(ip).value.family == 4 <==> ParseIpv4(ip).Some?
    ensures ParseIpv4(ip).Some? ==> ParseIp(ip).value == Quad(ParseIpv4(ip).value)
  {
    hide ParseIpv4, ExpandIpv6, AllHex, Free, DotsOnlyInTail;
    if ParseIpv4(ip).Some? {
      assert ValidOctets(ParseIpv4(ip).value);
    } else {
      ExpandIsHexIff(ip);
    }
  }

  function QuadLabels(o: seq<nat>): seq<string>
    requires ValidOctets(o)
  {
    [ToDec(o[3]), ToDec(o[2]), ToDec(o[1]), ToDec(o[0]), "in-addr", "arpa"]
  }

  function NibbleLabels(h: string): seq<string> {
    Reversed(Chars(h)) + ["ip6", "arpa"]
  }

  lemma QuadOwner(o: seq<nat>)
    requires ValidOctets(o)
    ensures OwnerOf(Quad(o)) == Join(QuadLabels(o), ".") + "."
    ensures Split(Quad(o).canonical, '.') == Decimals(o)
  {
    hide Split, ParseIpv4;
    Ipv4RoundTrip(o);
    var d := Reversed(Decimals(o));
    assert d == QuadLabels(o)[..4];
    var t := ["in-addr", "arpa"];
    assert QuadLabels(o) == d + t;
    JoinAppend(d, t, ".");
    JoinTwo("in-addr", "arpa");
    assert IN_ADDR == "." + ("in-addr" + "." + "arpa") + ".";
  }

  lemma JoinTwo(a: string, b: string)
    ensures Join([a, b], ".") == a + "." + b
  {
    assert [a, b][1..] == [b];
  }

  lemma NibbleOwner(h: string)
    requires h != ""
    ensures OwnerOf(ParsedIp(6, h)) == Join(NibbleLabels(h), ".") + "."
  {
    hide Join;
    var d, t := Reversed(Chars(h)), ["ip6", "arpa"];
    JoinAppend(d, t, ".");
    JoinTwo("ip6", "arpa");
    assert IP6 == "." + ("ip6" + "." + "arpa") + ".";
  }

  lemma OwnerEndsInDot(p: ParsedIp)
    ensures EndsInDot(OwnerOf(p))
  {
    hide Join, Split;
  }

  /* --------------------------------- sound, complete and most specific */

  /** The zone is a classless block of the address's /24 that holds it. */
  predicate CoversQuad(o: seq<nat>, zone: string)
    requires ValidOctets(o)
  {
    var b := ParseClasslessZone(zone);
    b.Some? && b.value.parentLabels == ToDec(o[2]) + "." + ToDec(o[1]) + "." + ToDec(o[0]) &&
    b.value.first <= o[3] <= b.value.last
  }

  predicate Covers(ip: string, zone: string) {
    ParseIpv4(ip).Some? && CoversQuad(ParseIpv4(ip).value, zone)
  }

  lemma QuadMatch(o: seq<nat>, hosted: seq<string>)
    requires ValidOctets(o)
    ensures ClasslessMatch(Quad(o), hosted) ==
            BestBlock(hosted, ToDec(o[2]) + "." + ToDec(o[1]) + "." + ToDec(o[0]), o[3])
    ensures Split(Quad(o).canonical, '.') == Decimals(o)
  {
    hide Split, BestBlock, Join, ToDec, ParseDec;
    QuadOwner(o);
    ParseToDec(o[3]);
  }

  /** Null exactly when nothing hosted covers the address; otherwise a covering
      classless block of least span if there is any, else the longest hosted name
      above the owner. */
  lemma FindIsMostSpecific(ip: string, zones: seq<string>)
    requires ParseIp(ip).Some?
    ensures var r, owner := FindReverseZone(ip, zones), OwnerOf(ParseIp(ip).value);
            (r.None? <==> forall z :: Listed(zones, z) ==> !Covers(ip, z) && !ProperSuffix(owner, z)) &&
            (r.Some? ==> Listed(zones, r.value.zone)) &&
            (r.Some? && r.value.classless ==>
               Covers(ip, r.value.zone) &&
               r.value.owner == ToDec(ParseIpv4(ip).value[3]) + "." + r.value.zone &&
               forall z :: Listed(zones, z) && Covers(ip, z) ==> Span(r.value.zone) <= Span(z)) &&
            (r.Some? && !r.value.classless ==>
               (forall z :: Listed(zones, z) ==> !Covers(ip, z)) &&
               r.value.owner == owner && ProperSuffix(owner, r.value.zone) &&
               forall z :: Listed(zones, z) && ProperSuffix(owner, z) ==> |z| <= |r.value.zone|)
  {
    hide Hosted, Listed, ProperSuffix, OwnerOf, Split, WalkSuffixes, ParseIpv4, ParseClasslessZone, ToDec, Join,
         ExpandIpv6;
    var hosted := Hosted(zones);
    forall z ensures z in hosted <==> Listed(zones, z) { HostedMember(zones, z); }
    ParsedIsAddress(ip);
    var p := ParseIp(ip).value;
    OwnerEndsInDot(p);
    WalkIsLongest(OwnerOf(p), hosted);
    if p.family == 4 {
      var o := ParseIpv4(ip).value;
      QuadMatch(o, hosted);
      forall z ensures CoversOctet(z, ToDec(o[2]) + "." + ToDec(o[1]) + "." + ToDec(o[0]), o[3]) <==> Covers(ip, z) {}
    }
  }

  /** The order zones are listed in matters only between blocks of equal span. */
  lemma OrderIrrelevant(ip: string, zones: seq<string>, other: seq<string>)
    requires ParseIp(ip).Some?
    requires forall z :: Listed(zones, z) <==> Listed(other, z)
    ensures var r, q := FindReverseZone(ip, zones), FindReverseZone(ip, other);
            r == q || (r.Some? && q.Some? && r.value.classless && q.value.classless &&
                       Span(r.value.zone) == Span(q.value.zone))
  {
    FindIsMostSpecific(ip, zones);
    FindIsMostSpecific(ip, other);
    hide FindReverseZone, Listed, OwnerOf, Covers, Span, ProperSuffix;
    var r, q := FindReverseZone(ip, zones), FindReverseZone(ip, other);
    if r.Some? && q.Some? && !r.value.classless && !q.value.classless {
      SuffixByLength(OwnerOf(ParseIp(ip).value), r.value.zone, q.value.zone);
    }
  }

  lemma SuffixByLength(owner: string, a: string, b: string)
    requires ProperSuffix(owner, a) && ProperSuffix(owner, b) && |a| == |b|
    ensures a == b
  {
    assert a == ("." + a)[1..] && b == ("." + b)[1..];
  }

  /* --------------------------------------------- the owner leads back */

  lemma LabelsOf(l: seq<string>)
    requires |l| >= 1 && AllPlain(l) && AllFree(l, '.')
    ensures Split(WithoutFinalDot(Lower(Trim(Join(l, ".") + "."))), '.') == l
  {
    hide Plain, Split, Trim, Lower, Join, AllPlain, AllFree;
    var s := Join(l, ".");
    PlainDot();
    PlainJoin(l, ".");
    PlainPlus(s, ".");
    PlainIsFixed(s + ".");
    assert (s + ".")[..|s|] == s;
    SplitJoin(l, '.');
  }

  lemma PlainPlus(a: string, b: string)
    requires Plain(a) && Plain(b)
    ensures Plain(a + b)
  {}

  lemma DigitsPlain(s: string)
    requires AllDigits(s)
    ensures Plain(s) && Free(s, '.')
  {}

  lemma QuadLabelsPlain(o: seq<nat>)
    requires ValidOctets(o)
    ensures AllPlain(QuadLabels(o)) && AllFree(QuadLabels(o), '.')
  {
    hide Plain, Free, ToDec;
    forall i | 0 <= i < 4 { DigitsPlain(ToDec(o[i])); }
    ArpaPlain();
  }

  lemma ArpaPlain()
    ensures forall s :: s in {"in-addr", "arpa", "ip6"} ==> Plain(s) && Free(s, '.')
  {}

  lemma QuadBack(o: seq<nat>)
    requires ValidOctets(o)
    ensures IpFromReverseOwner(OwnerOf(Quad(o))) == Some(Quad(o).canonical)
  {
    hide Split, Lower, Trim, Join, ParseIpv4, OwnerOf, WithoutFinalDot, ShortNumber, IsBlockLabel, AllFree, AllPlain,
         Plain;
    QuadOwner(o);
    QuadLabelsPlain(o);
    LabelsOf(QuadLabels(o));
    Ipv4RoundTrip(o);
    forall i | 0 <= i < 4 { OctetOfDecimal(o[i]); }
    assert Decimals(o) == [ToDec(o[0]), ToDec(o[1]), ToDec(o[2]), ToDec(o[3])];
  }

  lemma QuadParses(o: seq<nat>)
    requires ValidOctets(o)
    ensures ParseIp(Quad(o).canonical) == Some(Quad(o))
  {
    hide ParseIpv4, Join;
    Ipv4RoundTrip(o);
  }

  /** The labels of a classless zone, and what its owner names for one address. */
  lemma BlockLabels(o: seq<nat>, zone: string) returns (b: string)
    requires ValidOctets(o) && CoversQuad(o, zone)
    ensures IsBlockLabel(b)
    ensures zone == Join([b, ToDec(o[2]), ToDec(o[1]), ToDec(o[0]), "in-addr", "arpa"], ".") + "."
  {
    hide Split, Join, ToDec, IsBlockLabel, ShortNumber, ParseDec, Bits.Pow2, AllFree, Free;
    var m := Split(zone, '.');
    b := m[0];
    JoinSplit(zone, '.');
    SplitFree(zone, '.');
    var t := [ToDec(o[2]), ToDec(o[1]), ToDec(o[0])];
    ThreeLabels(m[1..4], t, ToDec(o[2]) + "." + ToDec(o[1]) + "." + ToDec(o[0]), m, o);
    var l := [b, ToDec(o[2]), ToDec(o[1]), ToDec(o[0]), "in-addr", "arpa"];
    assert m == l + [""] by { assert m[1..4][0] == m[1] && m[1..4][1] == m[2] && m[1..4][2] == m[3]; }
    JoinAppend(l, [""], ".");
    JoinOne("");
  }

  lemma JoinOne(a: string)
    ensures Join([a], ".") == a
  {}

  lemma ThreeLabels(a: seq<string>, t: seq<string>, text: string, m: seq<string>, o: seq<nat>)
    requires ValidOctets(o) && |m| == 7 && a == m[1..4] && AllFree(m, '.')
    requires t == [ToDec(o[2]), ToDec(o[1]), ToDec(o[0])]
    requires text == ToDec(o[2]) + "." + ToDec(o[1]) + "." + ToDec(o[0]) && Join(a, ".") == text
    ensures a == t
  {
    hide Split, ToDec, Free, AllDigits;
    assert t[1..] == [ToDec(o[1]), ToDec(o[0])];
    JoinTwo(ToDec(o[1]), ToDec(o[0]));
    assert Join(t, ".") == ToDec(o[2]) + "." + Join(t[1..], ".");
    assert Join(t, ".") == text;
    assert AllFree(a, '.');
    forall i | 0 <= i < 4 { DigitsPlain(ToDec(o[i])); }
    assert AllFree(t, '.');
    SplitJoin(a, '.');
    SplitJoin(t, '.');
  }

  lemma BlockLabelPlain(b: string)
    requires IsBlockLabel(b)
    ensures Plain(b) && Free(b, '.')
  {
    var i := DigitsEnd(b);
    assert b == b[..i] + [b[i]] + b[i + 1..];
    DigitsPlain(b[..i]);
    DigitsPlain(b[i + 1..]);
    assert Plain([b[i]]) && Free([b[i]], '.');
  }

  lemma BlockBack(o: seq<nat>, zone: string)
    requires ValidOctets(o) && CoversQuad(o, zone)
    ensures IpFromReverseOwner(ToDec(o[3]) + "." + zone) == Some(Quad(o).canonical)
  {
    hide Split, Lower, Trim, Join, ParseIpv4, WithoutFinalDot, ShortNumber, IsBlockLabel, AllFree, AllPlain, Plain,
         Free, CoversQuad, ToDec;
    var b := BlockLabels(o, zone);
    var l := [b, ToDec(o[2]), ToDec(o[1]), ToDec(o[0]), "in-addr", "arpa"];
    var m := [ToDec(o[3])] + l;
    JoinAppend([ToDec(o[3])], l, ".");
    JoinOne(ToDec(o[3]));
    assert ToDec(o[3]) + "." + zone == Join(m, ".") + ".";
    BlockLabelPlain(b);
    PlainLabels(m, b, o);
    LabelsOf(m);
    Ipv4RoundTrip(o);
    forall i | 0 <= i < 4 { OctetOfDecimal(o[i]); }
    assert Decimals(o) == [ToDec(o[0]), ToDec(o[1]), ToDec(o[2]), ToDec(o[3])];
  }

  lemma PlainLabels(m: seq<string>, b: string, o: seq<nat>)
    requires ValidOctets(o) && Plain(b) && Free(b, '.')
    requires m == [ToDec(o[3])] + [b, ToDec(o[2]), ToDec(o[1]), ToDec(o[0]), "in-addr", "arpa"]
    ensures AllPlain(m) && AllFree(m, '.')
  {
    hide Plain, Free, ToDec;
    forall i | 0 <= i < 4 { DigitsPlain(ToDec(o[i])); }
    ArpaPlain();
  }

  lemma NibblesBack(h: string)
    requires |h| == 32 && AllHex(h)
    ensures IpFromReverseOwner(OwnerOf(ParsedIp(6, h))) == Some(Ipv6Text(h))
    ensures ParseIp(Ipv6Text(h)) == Some(ParsedIp(6, h))
  {
    hide Split, Lower, Trim, Join, ParseIpv4, OwnerOf, WithoutFinalDot, AllFree, AllPlain, Plain, Free, ExpandIpv6,
         Ipv6Text;
    NibbleOwner(h);
    var l := NibbleLabels(h);
    NibbleLabelsPlain(h);
    LabelsOf(l);
    assert AreNibbles(l);
    assert NibbleHex(l) == h;
    Ipv6RoundTrip(h);
    Ipv6TextHasNoDot(h);
    NotAQuad(Ipv6Text(h));
  }

  lemma NibbleLabelsPlain(h: string)
    requires |h| == 32 && AllHex(h)
    ensures AllPlain(NibbleLabels(h)) && AllFree(NibbleLabels(h), '.')
  {
    forall i | 0 <= i < 32 ensures Plain(NibbleLabels(h)[i]) && Free(NibbleLabels(h)[i], '.') {
      assert NibbleLabels(h)[i] == [h[31 - i]];
    }
    ArpaPlain();
  }

  lemma Ipv6TextHasNoDot(h: string)
    requires |h| == 32 && AllHex(h)
    ensures Free(Ipv6Text(h), '.') && Plain(Ipv6Text(h))
  {
    var g, run := ShortGroups(h), LongestRun(ShortGroups(h));
    ShortGroupsPrinted(h);
    hide Plain, Join, ShortGroups, ScanRuns, PrintedGroups;
    if run.len >= 2 && 0 <= run.start && run.start + run.len <= |g| {
      PrintedSlice(g, 0, run.start);
      PrintedSlice(g, run.start + run.len, |g|);
      var a, b := g[0..run.start], g[run.start + run.len..|g|];
      JoinChars(a);
      JoinChars(b);
      DoubleChars(Join(a, ":"), Join(b, ":"));
      assert g[..run.start] == a && g[run.start + run.len..] == b;
    } else {
      JoinChars(g);
    }
  }

  lemma NotAQuad(text: string)
    requires Plain(text) && Free(text, '.')
    ensures ParseIpv4(text).None?
  {
    hide Plain, Free, Trim, Lower;
    PlainIsFixed(text);
    SplitOfFree(text, '.');
  }

  /* A v6 canonical form with a dot in it has too many labels to be read back. */

  lemma {:induction false} DotsJoin(parts: seq<string>)
    requires |parts| >= 1
    ensures Dots(Join(parts, ".")) >= |parts| - 1
    ensures !AllFree(parts, '.') ==> Dots(Join(parts, ".")) >= |parts|
  {
    DotsFree(parts[0]);
    if |parts| > 1 {
      DotsJoin(parts[1..]);
      DotsConcat(parts[0] + ".", Join(parts[1..], "."));
      DotsConcat(parts[0], ".");
      assert Dots(".") == 1;
      if AllFree(parts[1..], '.') && Free(parts[0], '.') {
        assert forall i :: 1 <= i < |parts| ==> parts[i] == parts[1..][i - 1];
      }
    }
  }

  lemma {:induction false} DotsFree(s: string)
    ensures Free(s, '.') <==> Dots(s) == 0
  {
    if s != "" {
      DotsFree(s[1..]);
      assert forall i :: 1 <= i < |s| ==> s[i] == s[1..][i - 1];
    }
  }

  lemma {:induction false} TrimLowerDots(s: string)
    ensures Dots(Lower(s)) == Dots(s)
  {
    if s != "" {
      TrimLowerDots(s[1..]);
      assert Lower(s)[1..] == Lower(s[1..]);
    }
  }

  lemma DottedNotBack(h: string)
    requires |h| == 32 && !Free(h, '.') && HexOrDot(h)
    ensures IpFromReverseOwner(OwnerOf(ParsedIp(6, h))).None?
  {
    hide Split, Lower, Trim, Join, OwnerOf, Dots, AllFree, Ipv4FromLabels;
    NibbleOwner(h);
    var l := NibbleLabels(h);
    var s := Join(l, ".");
    var i :| 0 <= i < 32 && h[i] == '.';
    assert l[31 - i] == [h[i]] && l[31 - i][0] == '.';
    DottedLabel(l, 31 - i);
    DotsJoin(l);
    assert IsHex(h[31]) || h[31] == '.';
    OwnerTrimmed(h, s + ".");
    TrimLowerDots(s + ".");
    var n := Lower(s + ".");
    LowerEnd(s);
    assert WithoutFinalDot(n) == n[..|s|] && n == n[..|s|] + ".";
    DotsConcat(n[..|s|], ".");
    DotsConcat(s, ".");
    SplitCount(n[..|s|]);
    ManyLabels(Split(n[..|s|], '.'));
  }

  lemma DottedLabel(l: seq<string>, i: nat)
    requires i < |l| && |l[i]| == 1 && l[i][0] == '.'
    ensures !AllFree(l, '.')
  {
    assert !Free(l[i], '.');
  }

  lemma LowerEnd(s: string)
    ensures Lower(s + ".")[|s|] == '.'
  {}

  lemma ManyLabels(m: seq<string>)
    requires |m| > 34
    ensures Ipv4FromLabels(m).None? && !AreNibbles(m)
  {}

  lemma OwnerTrimmed(h: string, owner: string)
    requires |h| == 32 && owner == Join(NibbleLabels(h), ".") + "." && !IsSpace(h[31])
    ensures Trim(owner) == owner
  {
    var l := NibbleLabels(h);
    assert l[0] == [h[31]];
    assert owner[0] == l[0][0];
  }

  /** `ipFromReverseOwner` undoes `findReverseZone`: the owner of any match, plain,
      classless or ip6.arpa, denotes the queried address. The one exception is an IPv6
      text with a dot before its last colon, whose owner denotes no address at all. */
  lemma OwnerLeadsBackIff(ip: string, zones: seq<string>)
    requires FindReverseZone(ip, zones).Some?
    ensures var p, back := ParseIp(ip).value, IpFromReverseOwner(FindReverseZone(ip, zones).value.owner);
            if p.family == 4 || DotsOnlyInTail(ip) then back.Some? && ParseIp(back.value) == Some(p)
            else back.None?
  {
    FindIsMostSpecific(ip, zones);
    ParsedIsAddress(ip);
    hide FindReverseZone, ParseIp, OwnerOf, IpFromReverseOwner, Covers, DotsOnlyInTail, ParseIpv4, CoversQuad, Ipv6Text;
    var p, m := ParseIp(ip).value, FindReverseZone(ip, zones).value;
    if p.family == 4 {
      var o := ParseIpv4(ip).value;
      QuadParses(o);
      if m.classless { CoversIs(ip, m.zone); BlockBack(o, m.zone); } else { QuadBack(o); }
    } else {
      NotClasslessV6(ip, m.zone);
      if DotsOnlyInTail(ip) { NibblesBack(p.canonical); }
      else { NotHexHasDot(p.canonical); DottedNotBack(p.canonical); }
    }
  }

  lemma CoversIs(ip: string, zone: string)
    requires Covers(ip, zone)
    ensures CoversQuad(ParseIpv4(ip).value, zone)
  {}

  lemma NotClasslessV6(ip: string, zone: string)
    requires ParseIpv4(ip).None?
    ensures !Covers(ip, zone)
  {}

  lemma NotHexHasDot(s: string)
    requires HexOrDot(s) && !AllHex(s)
    ensures !Free(s, '.')
  {}

  lemma {:induction false} JoinCharsAt(parts: seq<string>, i: nat)
    requires i < |parts| && forall j :: 0 <= j < |parts| ==> |parts[j]| == 1
    ensures |Join(parts, ".")| == 2 * |parts| - 1 && Join(parts, ".")[2 * i] == parts[i][0]
  {
    if |parts| > 1 {
      JoinCharsAt(parts[1..], if i == 0 then 0 else i - 1);
    }
  }

  lemma NibbleOwnerInjective(g: string, h: string)
    requires |g| == |h| == 32 && OwnerOf(ParsedIp(6, g)) == OwnerOf(ParsedIp(6, h))
    ensures g == h
  {
    var a, b := Reversed(Chars(g)), Reversed(Chars(h));
    forall i | 0 <= i < 32 ensures g[i] == h[i] {
      JoinCharsAt(a, 31 - i);
      JoinCharsAt(b, 31 - i);
      assert Join(a, ".") == OwnerOf(ParsedIp(6, g))[..63] && Join(b, ".") == OwnerOf(ParsedIp(6, h))[..63];
      assert a[31 - i] == [g[i]] && b[31 - i] == [h[i]];
    }
  }

  /** Distinct addresses never share an owner, whatever zones are hosted. */
  lemma OwnerDeterminesAddress(a: string, b: string, zones: seq<string>, other: seq<string>)
    requires FindReverseZone(a, zones).Some? && FindReverseZone(b, other).Some?
    requires FindReverseZone(a, zones).value.owner == FindReverseZone(b, other).value.owner
    ensures ParseIp(a) == ParseIp(b)
  {
    OwnerLeadsBackIff(a, zones);
    OwnerLeadsBackIff(b, other);
    FindIsMostSpecific(a, zones);
    FindIsMostSpecific(b, other);
    ParsedIsAddress(a);
    ParsedIsAddress(b);
    hide FindReverseZone, OwnerOf, IpFromReverseOwner, Covers, DotsOnlyInTail, ParseIp;
    var p, q := ParseIp(a).value, ParseIp(b).value;
    if p.family == 6 && q.family == 6 {
      NotClasslessV6(a, FindReverseZone(a, zones).value.zone);
      NotClasslessV6(b, FindReverseZone(b, other).value.zone);
      NibbleOwnerInjective(p.canonical, q.canonical);
    }
  }

  /** Owners are in lower case as they are. */
  lemma OwnerIsLower(ip: string, zones: seq<string>)
    requires FindReverseZone(ip, zones).Some?
    ensures var o := FindReverseZone(ip, zones).value.owner; Lower(o) == o
  {
    FindIsMostSpecific(ip, zones);
    ParsedIsAddress(ip);
    hide FindReverseZone, ParseIp, OwnerOf, Covers, Listed, ParseIpv4, Plain, AllPlain, Join, Lower, ProperSuffix,
         ToDec;
    var p, m := ParseIp(ip).value, FindReverseZone(ip, zones).value;
    if p.family == 4 {
      var o := ParseIpv4(ip).value;
      if m.classless {
        hide CanonicalZone;
        ListedIsLower(zones, m.zone);
        DigitsPlain(ToDec(o[3]));
        PlainDot();
        PlainPlus(ToDec(o[3]), ".");
        PlainIsFixed(ToDec(o[3]) + ".");
        LowerPlus(ToDec(o[3]) + ".", m.zone);
      } else {
        QuadOwner(o);
        QuadLabelsPlain(o);
        PlainOwner(QuadLabels(o));
      }
    } else {
      NotClasslessV6(ip, m.zone);
      NibbleOwner(p.canonical);
      HexOrDotLabels(p.canonical);
      PlainOwner(NibbleLabels(p.canonical));
    }
  }

  lemma PlainOwner(l: seq<string>)
    requires AllPlain(l)
    ensures Lower(Join(l, ".") + ".") == Join(l, ".") + "."
  {
    hide Plain, Lower, Join, AllPlain;
    PlainDot();
    PlainJoin(l, ".");
    PlainPlus(Join(l, "."), ".");
    PlainIsFixed(Join(l, ".") + ".");
  }

  lemma HexOrDotLabels(h: string)
    requires |h| == 32 && HexOrDot(h)
    ensures AllPlain(NibbleLabels(h))
  {
    forall i | 0 <= i < 32 ensures Plain(NibbleLabels(h)[i]) {
      assert NibbleLabels(h)[i] == [h[31 - i]];
      assert IsHex(h[31 - i]) || h[31 - i] == '.';
    }
    ArpaPlain();
  }

  lemma LowerPlus(a: string, b: string)
    ensures Lower(a + b) == Lower(a) + Lower(b)
  {
    hide LowerChar;
  }

  lemma ListedIsLower(zones: seq<string>, z: string)
    requires Listed(zones, z)
    ensures Lower(z) == z
  {
    hide CanonicalZone;
    var i :| 0 <= i < |zones| && CanonicalZone(zones[i]) == z;
    CanonicalZoneLower(zones[i]);
  }

  /* ------------------------------------------ plain zones above a quad */

  /** The reverse zone of the address's leading octets: `skip` 1 is its /24, 2 its /16. */
  function ZoneAbove(o: seq<nat>, skip: nat): string
    requires ValidOctets(o) && skip <= 4
  {
    Join(QuadLabels(o)[skip..], ".") + "."
  }

  lemma AboveSuffix(o: seq<nat>, skip: nat)
    requires ValidOctets(o) && 1 <= skip <= 2
    ensures ProperSuffix(OwnerOf(Quad(o)), ZoneAbove(o, skip))
  {
    hide OwnerOf, ToDec, Join;
    var l := QuadLabels(o);
    QuadOwner(o);
    JoinAppend(l[..skip], l[skip..], ".");
    assert l[..skip] + l[skip..] == l;
    var z := ZoneAbove(o, skip);
    var owner := Join(l, ".") + ".";
    assert owner == Join(l[..skip], ".") + ("." + z);
    assert owner[|owner| - |"." + z|..] == "." + z;
  }

  lemma AboveNotClassless(o: seq<nat>, skip: nat)
    requires ValidOctets(o) && 1 <= skip <= 2
    ensures ParseClasslessZone(ZoneAbove(o, skip)).None?
  {
    hide ToDec, Join, Split, Free;
    QuadLabelsPlain(o);
    var l := QuadLabels(o)[skip..];
    JoinAppend(l, [""], ".");
    JoinOne("");
    assert AllFree(l + [""], '.') by { assert Free("", '.') by { FreeEmpty(); } }
    SplitJoin(l + [""], '.');
    assert Join(l, ".") + "." + "" == ZoneAbove(o, skip);
  }

  lemma FreeEmpty()
    ensures Free("", '.')
  {}

  lemma {:induction false} StripOne(s: string)
    requires s != "" && s[|s| - 1] != '.'
    ensures StripDots(s + ".") == s
  {
    assert (s + ".")[..|s|] == s;
  }

  lemma AboveCanonical(o: seq<nat>, skip: nat)
    requires ValidOctets(o) && 1 <= skip <= 2
    ensures CanonicalZone(ZoneAbove(o, skip)) == ZoneAbove(o, skip)
  {
    hide ToDec, Join, Plain, Trim, Lower, AllPlain;
    var l := QuadLabels(o);
    QuadLabelsPlain(o);
    var t := l[skip..];
    AllPlainTail(l, skip);
    PlainDot();
    PlainJoin(t, ".");
    var s := Join(t, ".");
    PlainPlus(s, ".");
    PlainIsFixed(s + ".");
    JoinAppend(t[..|t| - 1], ["arpa"], ".");
    JoinOne("arpa");
    assert t == t[..|t| - 1] + ["arpa"];
    assert s[|s| - 1] == "arpa"[3];
    StripOne(s);
  }

  lemma AllPlainTail(l: seq<string>, skip: nat)
    requires AllPlain(l) && skip <= |l|
    ensures AllPlain(l[skip..])
  {
    hide Plain;
  }

  lemma AboveLength(o: seq<nat>)
    requires ValidOctets(o)
    ensures |ZoneAbove(o, 1)| > |ZoneAbove(o, 2)|
  {
    hide ToDec;
    var l := QuadLabels(o)[1..];
    assert l[1..] == QuadLabels(o)[2..];
  }

  lemma QuadIsParsed(o: seq<nat>)
    requires ValidOctets(o)
    ensures ParseIp(Quad(o).canonical) == Some(Quad(o)) && ParseIpv4(Quad(o).canonical) == Some(o)
  {
    Ipv4RoundTrip(o);
    QuadParses(o);
  }

  /** With no classless zone listed, the match is the longest listed suffix. */
  lemma FindLongest(ip: string, zones: seq<string>, zone: string)
    requires ParseIp(ip).Some? && zone in zones && ProperSuffix(OwnerOf(ParseIp(ip).value), zone)
    requires forall i :: 0 <= i < |zones| ==> CanonicalZone(zones[i]) == zones[i] && ParseClasslessZone(zones[i]).None?
    requires forall i :: 0 <= i < |zones| ==> |zones[i]| < |zone| || zones[i] == zone
    ensures FindReverseZone(ip, zones) == Some(ReverseZoneMatch(zone, OwnerOf(ParseIp(ip).value), false))
  {
    hide FindReverseZone, OwnerOf, ProperSuffix, CanonicalZone, ParseIp, ParseIpv4;
    FindIsMostSpecific(ip, zones);
    var i :| 0 <= i < |zones| && zones[i] == zone;
    assert Listed(zones, zone);
    forall z | Listed(zones, z) ensures !Covers(ip, z) && (|z| < |zone| || z == zone) {
      var j :| 0 <= j < |zones| && CanonicalZone(zones[j]) == z;
    }
  }
}
