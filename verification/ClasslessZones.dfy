/** Which addresses a classless zone (section 4 of RFC 2317) covers, read off its name. */
module ClasslessZones {
  import opened Options
  import opened Text
  import opened ReverseName
  import opened ReverseZoneLaws
  import Bits

  predicate Numeral(s: string) {
    1 <= |s| <= 3 && forall i :: 0 <= i < |s| ==> '0' <= s[i] <= '9'
  }

  /** A label in front of the /24 of an address. */
  function Above24(block: string, o: seq<nat>): string
    requires ValidOctets(o)
  {
    block + "." + ToDec(o[2]) + "." + ToDec(o[1]) + "." + ToDec(o[0]) + ".in-addr.arpa."
  }

  /** `first/length`: the block of that prefix length, /25 to /32, starting on its boundary. */
  predicate PrefixHolds(first: nat, length: nat, x: nat) {
    first <= 255 && 25 <= length <= 32 && first % Bits.Pow2(32 - length) == 0 &&
    x / Bits.Pow2(32 - length) == first / Bits.Pow2(32 - length)
  }

  /** `first-last`. */
  predicate RangeHolds(first: nat, last: nat, x: nat) {
    first <= x <= last && last <= 255
  }

  /** The zone's name, read with these two numerals, covers the address with so many others. */
  predicate HoldsAs(o: seq<nat>, zone: string, f: string, g: string, size: nat)
    requires ValidOctets(o)
  {
    Numeral(f) && Numeral(g) &&
    ((zone == Above24(f + "/" + g, o) && PrefixHolds(ParseDec(f), ParseDec(g), o[3]) &&
      size == Bits.Pow2(32 - ParseDec(g))) ||
     (zone == Above24(f + "-" + g, o) && RangeHolds(ParseDec(f), ParseDec(g), o[3]) &&
      size == ParseDec(g) - ParseDec(f) + 1))
  }

  ghost predicate Holds(o: seq<nat>, zone: string, size: nat)
    requires ValidOctets(o)
  {
    exists f, g :: HoldsAs(o, zone, f, g, size)
  }

  lemma {:induction false} DigitsEndIs(f: string, rest: string)
    requires AllDigits(f) && (rest == "" || !IsDigit(rest[0]))
    ensures DigitsEnd(f + rest) == |f|
  {
    if f == "" {
      assert f + rest == rest;
    } else {
      assert (f + rest)[1..] == f[1..] + rest;
      DigitsEndIs(f[1..], rest);
    }
  }

  /** Where a block label splits. */
  lemma LabelParts(f: string, sep: char, g: string)
    requires Numeral(f) && Numeral(g) && (sep == '/' || sep == '-')
    ensures var b := f + [sep] + g;
            IsBlockLabel(b) && DigitsEnd(b) == |f| && b[..|f|] == f && b[|f|] == sep && b[|f| + 1..] == g
  {
    var b := f + [sep] + g;
    assert b == f + ([sep] + g);
    DigitsEndIs(f, [sep] + g);
    assert b[..|f|] == f && b[|f| + 1..] == g;
  }

  lemma LabelIs(b: string) returns (f: string, sep: char, g: string)
    requires IsBlockLabel(b)
    ensures Numeral(f) && Numeral(g) && (sep == '/' || sep == '-') && b == f + [sep] + g
  {
    var i := DigitsEnd(b);
    f, sep, g := b[..i], b[i], b[i + 1..];
    assert b == f + [sep] + g;
  }

  /** The labels of such a zone. */
  lemma Above24Labels(block: string, o: seq<nat>)
    requires ValidOctets(o) && Free(block, '.')
    ensures var l := [block, ToDec(o[2]), ToDec(o[1]), ToDec(o[0]), "in-addr", "arpa"];
            Above24(block, o) == Join(l, ".") + "." && Split(Above24(block, o), '.') == l + [""]
  {
    hide ToDec, Split, Free;
    var l := [block, ToDec(o[2]), ToDec(o[1]), ToDec(o[0]), "in-addr", "arpa"];
    var t := [ToDec(o[2]), ToDec(o[1]), ToDec(o[0]), "in-addr", "arpa"];
    SixLabels(block, ToDec(o[2]), ToDec(o[1]), ToDec(o[0]));
    forall i | 0 <= i < 4 { DigitsPlain(ToDec(o[i])); }
    ArpaPlain();
    JoinAppend(l, [""], ".");
    JoinOne("");
    NoDotInNothing();
    SplitJoin(l + [""], '.');
    assert Join(l + [""], ".") == Join(l, ".") + ".";
  }

  lemma NoDotInNothing()
    ensures Free("", '.')
  {}

  lemma JoinCons(a: string, rest: seq<string>)
    requires rest != []
    ensures Join([a] + rest, ".") == a + "." + Join(rest, ".")
  {
    assert ([a] + rest)[1..] == rest;
  }

  lemma SixLabels(a: string, b: string, c: string, d: string)
    ensures Join([a, b, c, d, "in-addr", "arpa"], ".") + "." == a + "." + b + "." + c + "." + d + ".in-addr.arpa."
  {
    hide Join;
    JoinTwo("in-addr", "arpa");
    JoinCons(d, ["in-addr", "arpa"]);
    JoinCons(c, [d, "in-addr", "arpa"]);
    JoinCons(b, [c, d, "in-addr", "arpa"]);
    JoinCons(a, [b, c, d, "in-addr", "arpa"]);
    assert [d] + ["in-addr", "arpa"] == [d, "in-addr", "arpa"];
    assert [c] + [d, "in-addr", "arpa"] == [c, d, "in-addr", "arpa"];
    assert [b] + [c, d, "in-addr", "arpa"] == [b, c, d, "in-addr", "arpa"];
    assert [a] + [b, c, d, "in-addr", "arpa"] == [a, b, c, d, "in-addr", "arpa"];
    Nested(a, b, c, d, "in-addr" + "." + "arpa");
    assert "." + ("in-addr" + "." + "arpa") + "." == ".in-addr.arpa.";
  }

  lemma Nested(a: string, b: string, c: string, d: string, t: string)
    ensures a + "." + (b + "." + (c + "." + (d + "." + t))) + "." ==
            a + "." + b + "." + c + "." + d + ("." + t + ".")
  {}

  /** What the parser reads off a name of this form. */
  lemma ParseIs(o: seq<nat>, f: string, sep: char, g: string)
    requires ValidOctets(o) && Numeral(f) && Numeral(g) && (sep == '/' || sep == '-')
    ensures var r := ParseClasslessZone(Above24(f + [sep] + g, o));
            var first, n := ParseDec(f), ParseDec(g);
            var parent := ToDec(o[2]) + "." + ToDec(o[1]) + "." + ToDec(o[0]);
            r == if sep == '/' && first <= 255 && 25 <= n <= 32 && first % Bits.Pow2(32 - n) == 0
                 then Some(Block(first, first + Bits.Pow2(32 - n) - 1, parent))
                 else if sep == '-' && first <= n <= 255 then Some(Block(first, n, parent))
                 else None
  {
    hide ToDec, Split, Join, ParseDec, IsBlockLabel, IsBlockZone, ParseClasslessZone, DigitsEnd, Above24, Bits.Pow2;
    LabelParts(f, sep, g);
    ZoneLabels(o, f + [sep] + g);
    ThreeJoined(ToDec(o[2]), ToDec(o[1]), ToDec(o[0]));
    BlockFrom(Above24(f + [sep] + g, o), Split(Above24(f + [sep] + g, o), '.'), f, sep, g);
  }

  /** Seven labels, the last one empty, of the right form. */
  lemma ZoneLabels(o: seq<nat>, b: string)
    requires ValidOctets(o) && IsBlockLabel(b)
    ensures var m := Split(Above24(b, o), '.');
            |m| == 7 && IsBlockZone(m) && m[0] == b && m[1..4] == [ToDec(o[2]), ToDec(o[1]), ToDec(o[0])]
  {
    BlockLabelPlain(b);
    hide ToDec, Split, Join, IsBlockLabel, ShortNumber, Above24, Free;
    Above24Labels(b, o);
    ShortOctets(o);
  }

  lemma BlockFrom(zone: string, m: seq<string>, f: string, sep: char, g: string)
    requires m == Split(zone, '.') && IsBlockZone(m) && Numeral(f) && Numeral(g) && (sep == '/' || sep == '-')
    requires var b := f + [sep] + g;
             m[0] == b && DigitsEnd(b) == |f| && b[..|f|] == f && b[|f|] == sep && b[|f| + 1..] == g
    ensures var first, n, parent := ParseDec(f), ParseDec(g), Join(m[1..4], ".");
            ParseClasslessZone(zone) ==
              if sep == '/' && first <= 255 && 25 <= n <= 32 && first % Bits.Pow2(32 - n) == 0
              then Some(Block(first, first + Bits.Pow2(32 - n) - 1, parent))
              else if sep == '-' && first <= n <= 255 then Some(Block(first, n, parent))
              else None
  {
    hide Split, Join, ParseDec, IsBlockZone, Bits.Pow2, DigitsEnd, AllDigits, IsDigit, Numeral;
  }

  lemma ThreeJoined(a: string, b: string, c: string)
    ensures Join([a, b, c], ".") == a + "." + b + "." + c
  {
    assert [a, b, c][1..] == [b, c];
    JoinTwo(b, c);
  }

  lemma ShortOctets(o: seq<nat>)
    requires ValidOctets(o)
    ensures forall i :: 0 <= i < 4 ==> ShortNumber(ToDec(o[i]))
  {
    forall i | 0 <= i < 4 ensures ShortNumber(ToDec(o[i])) { ToDecLength(o[i]); }
  }

  lemma Multiples(a: nat, b: nat, size: nat)
    ensures a <= b ==> a * size <= b * size
  {}

  lemma QuotientIs(x: nat, size: nat, q: nat, r: nat)
    requires size > 0 && x == q * size + r && r < size
    ensures x / size == q
  {
    var p := x / size;
    assert x == p * size + x % size;
    Multiples(p + 1, q, size);
    Multiples(q + 1, p, size);
  }

  lemma SameQuotient(first: nat, size: nat, x: nat)
    requires size > 0 && first % size == 0
    ensures x / size == first / size <==> first <= x <= first + size - 1
  {
    var q := first / size;
    assert first == q * size;
    assert x == (x / size) * size + x % size;
    if first <= x <= first + size - 1 { QuotientIs(x, size, q, x - first); }
  }

  /** A zone covers an address exactly when its name says so: `f/g` with f on the boundary
      of the /g block of the last octet, or `f-g` around it, above the address's /24. */
  lemma CoversIffHolds(o: seq<nat>, zone: string)
    requires ValidOctets(o)
    ensures CoversQuad(o, zone) <==> exists size :: Holds(o, zone, size)
    ensures forall size :: Holds(o, zone, size) ==> size == Span(zone) + 1
  {
    hide CoversQuad, Span;
    forall size | Holds(o, zone, size) ensures CoversQuad(o, zone) && size == Span(zone) + 1 {
      var f, g :| HoldsAs(o, zone, f, g, size);
      HoldingCovers(o, zone, f, g, size);
    }
    if CoversQuad(o, zone) { var size := CoveringHolds(o, zone); }
  }

  lemma HoldingCovers(o: seq<nat>, zone: string, f: string, g: string, size: nat)
    requires ValidOctets(o) && HoldsAs(o, zone, f, g, size)
    ensures CoversQuad(o, zone) && size == Span(zone) + 1
  {
    hide ParseClasslessZone, ToDec, ParseDec, Above24;
    if zone == Above24(f + "/" + g, o) && PrefixHolds(ParseDec(f), ParseDec(g), o[3]) &&
       size == Bits.Pow2(32 - ParseDec(g)) {
      ParseIs(o, f, '/', g);
      assert f + ['/'] + g == f + "/" + g;
      SameQuotient(ParseDec(f), Bits.Pow2(32 - ParseDec(g)), o[3]);
    } else {
      ParseIs(o, f, '-', g);
      assert f + ['-'] + g == f + "-" + g;
    }
  }

  lemma CoveringHolds(o: seq<nat>, zone: string) returns (size: nat)
    requires ValidOctets(o) && CoversQuad(o, zone)
    ensures Holds(o, zone, size)
  {
    hide ParseClasslessZone, ToDec, ParseDec, Above24, Bits.Pow2, Join, IsBlockLabel;
    var b := BlockLabels(o, zone);
    BlockLabelPlain(b);
    Above24Labels(b, o);
    var f, sep, g := LabelIs(b);
    ParseIs(o, f, sep, g);
    if sep == '/' {
      size := Bits.Pow2(32 - ParseDec(g));
      SameQuotient(ParseDec(f), size, o[3]);
      assert f + ['/'] + g == f + "/" + g;
    } else {
      size := ParseDec(g) - ParseDec(f) + 1;
      assert f + ['-'] + g == f + "-" + g;
    }
    assert HoldsAs(o, zone, f, g, size);
  }

  /** The k-th zone is the block, and what covers before it has more addresses. */
  predicate IsFirstBlock(zones: seq<string>, labels: string, octet: nat, k: nat, r: string) {
    k < |zones| && CanonicalZone(zones[k]) == r &&
    forall i :: 0 <= i < k && CoversOctet(CanonicalZone(zones[i]), labels, octet) ==>
                  Span(r) < Span(CanonicalZone(zones[i]))
  }

  /** Among covering blocks of one size the choice is the one listed first. */
  lemma {:induction false} FirstBlock(zones: seq<string>, labels: string, octet: nat) returns (k: nat)
    ensures var r := BestBlock(Hosted(zones), labels, octet);
            r.Some? ==> IsFirstBlock(zones, labels, octet, k, r.value)
  {
    hide IsFirstBlock, Hosted, BestBlock;
    k := 0;
    if zones == [] {
      NothingBest(labels, octet);
    } else {
      var n := |zones| - 1;
      var j := FirstBlock(zones[..n], labels, octet);
      BestNext(zones[..n], zones[n], labels, octet);
      assert zones == zones[..n] + [zones[n]];
      var before, r := BestBlock(Hosted(zones[..n]), labels, octet), BestBlock(Hosted(zones), labels, octet);
      k := if r == before then j else n;
      if r.Some? {
        if r == before {
          FirstStays(zones, labels, octet, j, r.value);
        } else {
          FirstLast(zones, labels, octet, r.value);
        }
      }
    }
  }

  lemma NothingBest(labels: string, octet: nat)
    ensures BestBlock(Hosted([]), labels, octet).None?
  {}

  /** One more zone listed: the block it is, when no smaller or equal one covers before. */
  lemma BestNext(zones: seq<string>, zone: string, labels: string, octet: nat)
    ensures var before, r := BestBlock(Hosted(zones), labels, octet), BestBlock(Hosted(zones + [zone]), labels, octet);
            r == before ||
            (r == Some(CanonicalZone(zone)) &&
             forall z :: z in Hosted(zones) && CoversOctet(z, labels, octet) ==> Span(CanonicalZone(zone)) < Span(z))
  {
    hide CoversOctet, Span, CanonicalZone;
    var z, h := CanonicalZone(zone), Hosted(zones);
    assert (zones + [zone])[..|zones|] == zones;
    assert (h + [z])[..|h|] == h;
  }

  lemma FirstStays(zones: seq<string>, labels: string, octet: nat, k: nat, r: string)
    requires zones != [] && IsFirstBlock(zones[..|zones| - 1], labels, octet, k, r)
    ensures IsFirstBlock(zones, labels, octet, k, r)
  {
    hide CoversOctet, Span, CanonicalZone;
    forall i | 0 <= i <= k ensures zones[i] == zones[..|zones| - 1][i] {}
  }

  lemma FirstLast(zones: seq<string>, labels: string, octet: nat, r: string)
    requires zones != [] && r == CanonicalZone(zones[|zones| - 1])
    requires forall z :: z in Hosted(zones[..|zones| - 1]) && CoversOctet(z, labels, octet) ==> Span(r) < Span(z)
    ensures IsFirstBlock(zones, labels, octet, |zones| - 1, r)
  {
    hide CoversOctet, Span, CanonicalZone, Hosted;
    var n := |zones| - 1;
    forall i | 0 <= i < n ensures CanonicalZone(zones[i]) in Hosted(zones[..n]) { ListedAt(zones[..n], i); }
  }

  lemma ListedAt(zones: seq<string>, i: nat)
    requires i < |zones|
    ensures CanonicalZone(zones[i]) in Hosted(zones)
  {
    hide CanonicalZone, Hosted;
    HostedMember(zones, CanonicalZone(zones[i]));
  }

  /** The k-th zone covers the address with that many others; fewer than any other that
      covers it and comes before, and at most as many as any that comes after. */
  ghost predicate IsHome(o: seq<nat>, zones: seq<string>, k: nat, size: nat)
    requires ValidOctets(o)
  {
    k < |zones| && Holds(o, CanonicalZone(zones[k]), size) &&
    forall i, other :: 0 <= i < |zones| && Holds(o, CanonicalZone(zones[i]), other) ==>
                         if i < k then size < other else size <= other
  }

  /** The three labels of the address's /24. */
  function Labels24(o: seq<nat>): string
    requires ValidOctets(o)
  {
    ToDec(o[2]) + "." + ToDec(o[1]) + "." + ToDec(o[0])
  }

  lemma MatchIsBlock(ip: string, zones: seq<string>)
    requires ParseIpv4(ip).Some? && ValidOctets(ParseIpv4(ip).value)
    ensures var o, r := ParseIpv4(ip).value, FindReverseZone(ip, zones);
            r.Some? && r.value.classless ==> BestBlock(Hosted(zones), Labels24(o), o[3]) == Some(r.value.zone)
  {
    hide BestBlock, Hosted, ParseIpv4, ToDec, Split, WalkSuffixes, OwnerOf, ClasslessMatch;
    ParsedIsAddress(ip);
    QuadMatch(ParseIpv4(ip).value, Hosted(zones));
  }

  lemma HomeIs(ip: string, zones: seq<string>) returns (k: nat, size: nat)
    requires ParseIpv4(ip).Some? && ValidOctets(ParseIpv4(ip).value)
    requires var r := FindReverseZone(ip, zones); r.Some? && r.value.classless
    ensures k < |zones| && FindReverseZone(ip, zones).value.zone == CanonicalZone(zones[k])
    ensures IsHome(ParseIpv4(ip).value, zones, k, size)
  {
    hide FindReverseZone, ParseIpv4, ParseClasslessZone, BestBlock, Hosted, Span, ToDec, Holds, CanonicalZone;
    var o, z := ParseIpv4(ip).value, FindReverseZone(ip, zones).value.zone;
    MatchIsBlock(ip, zones);
    k := FirstBlock(zones, Labels24(o), o[3]);
    CoversIffHolds(o, z);
    size :| Holds(o, z, size);
    forall i, other | 0 <= i < |zones| && Holds(o, CanonicalZone(zones[i]), other)
      ensures if i < k then size < other else size <= other
    {
      CoversIffHolds(o, CanonicalZone(zones[i]));
      ListedAt(zones, i);
    }
  }

  /** So the answer for an IPv4 address is classless exactly when the name of some hosted
      zone covers it, and then it is the first such zone of least size, with the last octet
      in front. */
  lemma FindClassless(ip: string, zones: seq<string>) returns (k: nat)
    requires ParseIpv4(ip).Some?
    ensures var o, r := ParseIpv4(ip).value, FindReverseZone(ip, zones);
            ValidOctets(o) &&
            (r.Some? && r.value.classless <==>
               exists i, size :: 0 <= i < |zones| && Holds(o, CanonicalZone(zones[i]), size)) &&
            (r.Some? && r.value.classless ==>
               (exists size :: IsHome(o, zones, k, size)) && r.value.zone == CanonicalZone(zones[k]) &&
               r.value.owner == ToDec(o[3]) + "." + r.value.zone)
  {
    hide FindReverseZone, Listed, ParseIpv4, CoversQuad, Span, ToDec, ProperSuffix, Holds, ParseIp, CanonicalZone,
         Hosted;
    k := 0;
    Ipv4IsIp(ip);
    FindIsMostSpecific(ip, zones);
    var o, r := ParseIpv4(ip).value, FindReverseZone(ip, zones);
    forall z ensures Covers(ip, z) <==> exists size :: Holds(o, z, size) { CoversIffHolds(o, z); }
    forall z ensures z in Hosted(zones) <==> Listed(zones, z) { HostedMember(zones, z); }
    forall i | 0 <= i < |zones| ensures CanonicalZone(zones[i]) in Hosted(zones) { ListedAt(zones, i); }
    if r.Some? && r.value.classless {
      var size: nat;
      k, size := HomeIs(ip, zones);
    }
  }

  lemma Ipv4IsIp(ip: string)
    requires ParseIpv4(ip).Some?
    ensures ParseIp(ip).Some? && ValidOctets(ParseIpv4(ip).value)
  {
    hide ParseIpv4;
  }
}
