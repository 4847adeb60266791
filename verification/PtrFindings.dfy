/** When two rows are the same finding, field by field, and how addresses are ordered,
    octet by octet and digit by digit. */
module PtrFindings {
  import opened Options
  import opened Text
  import opened Sorting
  import opened ReverseName
  import opened AddressText
  import opened ReverseZoneLaws
  import opened PtrRowGroups
  import opened ExpanderAgreement

  /* ------------------------------------------------------- lists of names */

  predicate Named(values: seq<string>, n: string) {
    exists v :: v in values && Lower(v) == n
  }

  /** The same names, in any order, case and number. */
  ghost predicate SameNames(a: seq<string>, b: seq<string>) {
    forall n :: Named(a, n) <==> Named(b, n)
  }

  /** Names as DNS data: not empty, and without the characters the key joins with. */
  predicate Unjoined(values: seq<string>) {
    forall i :: 0 <= i < |values| ==> values[i] != "" && Free(values[i], ',') && Free(values[i], '|')
  }

  /** Increasing by code units, so without repetition. */
  ghost predicate Increasing(s: seq<string>) {
    forall i, j :: 0 <= i < j < |s| ==> Precedes(s[i], s[j])
  }

  lemma LowerSetNamed(values: seq<string>, n: string)
    ensures n in LowerSet(values) <==> Named(values, n)
  {
    hide Lower, LowerSet;
    LowerSetMember(values, n);
  }

  lemma SortedLowerIs(values: seq<string>)
    ensures forall n :: n in SortedLower(values) <==> Named(values, n)
    ensures Increasing(SortedLower(values))
  {
    hide Precedes, Lower, Named;
    forall n ensures n in LowerSet(values) <==> Named(values, n) {
      hide *;
      LowerSetNamed(values, n);
    }
    LowerSetDistinct(values);
    var set_, s := LowerSet(values), SortedLower(values);
    SortPermutes(set_, Precedes);
    PrecedesOrders();
    SortSorted(set_, Precedes);
    KeepsDistinct(set_, s);
    forall i, j | 0 <= i < j < |s| ensures Precedes(s[i], s[j]) {
      PrecedesAsymmetric(s[i], s[j]);
    }
  }

  lemma {:induction false} CountsOne(s: seq<string>, x: string)
    requires forall i, j :: 0 <= i < j < |s| ==> s[i] != s[j]
    ensures multiset(s)[x] <= 1
  {
    if s != [] {
      CountsOne(s[..|s| - 1], x);
      assert s == s[..|s| - 1] + [s[|s| - 1]];
    }
  }

  lemma KeepsDistinct(a: seq<string>, b: seq<string>)
    requires multiset(a) == multiset(b) && forall i, j :: 0 <= i < j < |a| ==> a[i] != a[j]
    ensures forall i, j :: 0 <= i < j < |b| ==> b[i] != b[j]
  {
    forall i, j | 0 <= i < j < |b| ensures b[i] != b[j] {
      CountsOne(a, b[i]);
      assert b == b[..j] + [b[j]] + b[j + 1..];
      assert b[i] in b[..j];
      assert multiset(b) == multiset(b[..j]) + multiset{b[j]} + multiset(b[j + 1..]);
    }
  }

  lemma {:induction false} IncreasingUnique(a: seq<string>, b: seq<string>)
    requires Increasing(a) && Increasing(b) && forall n :: n in a <==> n in b
    ensures a == b
  {
    hide Precedes;
    NothingToo(a, b);
    NothingToo(b, a);
    if a != [] {
      var m, n := |a| - 1, |b| - 1;
      LastIsGreatest(a, b);
      LastIsGreatest(b, a);
      PrecedesAsymmetric(a[m], b[n]);
      forall x ensures x in a[..m] <==> x in b[..n] {
        WithoutLast(a, x);
        WithoutLast(b, x);
      }
      IncreasingUnique(a[..m], b[..n]);
      assert a == a[..m] + [a[m]] && b == b[..n] + [b[n]];
    }
  }

  lemma NothingToo(a: seq<string>, b: seq<string>)
    requires forall n :: n in a <==> n in b
    ensures a == [] ==> b == []
  {
    var first := if b == [] then "" else b[0];
    assert b != [] ==> first in b;
  }

  lemma LastIsGreatest(a: seq<string>, b: seq<string>)
    requires Increasing(a) && a != [] && b != [] && forall n :: n in a <==> n in b
    ensures !Precedes(a[|a| - 1], b[|b| - 1])
  {
    hide Precedes;
    var x := b[|b| - 1];
    assert x in b;
    var i :| 0 <= i < |a| && a[i] == x;
    PrecedesAsymmetric(x, a[|a| - 1]);
    PrecedesAsymmetric(x, x);
  }

  lemma WithoutLast(a: seq<string>, x: string)
    requires Increasing(a) && a != []
    ensures x in a[..|a| - 1] <==> x in a && x != a[|a| - 1]
  {
    hide Precedes;
    var m := |a| - 1;
    assert a == a[..m] + [a[m]];
    if x in a[..m] {
      var i :| 0 <= i < m && a[i] == x;
      PrecedesAsymmetric(x, x);
    }
  }

  /** The sorted list of names says exactly which names there are. */
  lemma SameSorted(a: seq<string>, b: seq<string>)
    ensures SortedLower(a) == SortedLower(b) <==> SameNames(a, b)
  {
    hide SortedLower, Named;
    SortedLowerIs(a);
    SortedLowerIs(b);
    if SameNames(a, b) { IncreasingUnique(SortedLower(a), SortedLower(b)); }
    forall n ensures SortedLower(a) == SortedLower(b) ==> (Named(a, n) <==> Named(b, n)) {
      assert n in SortedLower(a) <==> Named(a, n);
      assert n in SortedLower(b) <==> Named(b, n);
    }
  }

  lemma LowerUnjoined(v: string)
    requires v != "" && Free(v, ',') && Free(v, '|')
    ensures Lower(v) != "" && Free(Lower(v), ',') && Free(Lower(v), '|')
  {}

  lemma SortedUnjoined(values: seq<string>)
    requires Unjoined(values)
    ensures Unjoined(SortedLower(values))
  {
    hide Lower, SortedLower, Free;
    SortedLowerIs(values);
    var s := SortedLower(values);
    forall i | 0 <= i < |s| ensures s[i] != "" && Free(s[i], ',') && Free(s[i], '|') {
      assert s[i] in s;
      var v :| v in values && Lower(v) == s[i];
      LowerUnjoined(v);
    }
  }

  lemma {:induction false} JoinedFree(parts: seq<string>)
    requires Unjoined(parts)
    ensures Free(Join(parts, ","), '|') && (Join(parts, ",") == "" <==> parts == [])
  {
    if |parts| > 1 {
      JoinedFree(parts[1..]);
    }
  }

  lemma SameJoined(a: seq<string>, b: seq<string>)
    requires Unjoined(a) && Unjoined(b)
    ensures Join(a, ",") == Join(b, ",") <==> a == b
  {
    hide Join;
    JoinedFree(a);
    JoinedFree(b);
    if a != [] && b != [] {
      SplitJoin(a, ',');
      SplitJoin(b, ',');
    }
  }

  function NamesText(values: seq<string>): string {
    Join(SortedLower(values), ",")
  }

  lemma SameNamesText(a: seq<string>, b: seq<string>)
    requires Unjoined(a) && Unjoined(b)
    ensures NamesText(a) == NamesText(b) <==> SameNames(a, b)
    ensures Free(NamesText(a), '|')
  {
    hide SortedLower, Join, SameNames;
    SortedUnjoined(a);
    SortedUnjoined(b);
    JoinedFree(SortedLower(a));
    SameJoined(SortedLower(a), SortedLower(b));
    SameSorted(a, b);
  }

  /* ------------------------------------------------------- one finding */

  function ExternalStatus(row: Row): string {
    if row.external.Some? then row.external.value.status else "pending"
  }

  function ExternalTargets(row: Row): seq<string> {
    if row.external.Some? then row.external.value.targets else []
  }

  /** No field holds the character the key is joined with. */
  predicate Readable(row: Row) {
    Free(row.horizon, '|') && Free(OrEmpty(row.reverseZone), '|') && Free(OrEmpty(row.reverseServer), '|') &&
    Unjoined(row.currentTargets) && Unjoined(row.forward) && Free(OrEmpty(row.suggestedTarget), '|') &&
    Free(ExternalStatus(row), '|') && Unjoined(ExternalTargets(row))
  }

  /** The same text, none being the empty one. */
  predicate SameText(a: Option<string>, b: Option<string>) {
    a == b || (a.None? && b == Some("")) || (b.None? && a == Some(""))
  }

  predicate SameSuggestion(a: Option<string>, b: Option<string>) {
    if a.Some? && b.Some? then Lower(a.value) == Lower(b.value) else SameText(a, b)
  }

  /** The rows agree on everything the finding is about. */
  ghost predicate SameFinding(a: Row, b: Row) {
    a.status == b.status && a.horizon == b.horizon &&
    SameText(a.reverseZone, b.reverseZone) && SameText(a.reverseServer, b.reverseServer) &&
    a.canWrite == b.canWrite && SameNames(a.currentTargets, b.currentTargets) && SameNames(a.forward, b.forward) &&
    (a.status == "mismatch" ==> SameSuggestion(a.suggestedTarget, b.suggestedTarget)) &&
    (a.status == "unhosted" ==>
       ExternalStatus(a) == ExternalStatus(b) && SameNames(ExternalTargets(a), ExternalTargets(b)))
  }

  lemma PartsFree(row: Row)
    requires Readable(row) && Groupable(row.status)
    ensures AllFree(KeyParts(row), '|')
  {
    hide SortedLower, Join, Lower;
    SameNamesText(row.currentTargets, row.currentTargets);
    SameNamesText(row.forward, row.forward);
    SameNamesText(ExternalTargets(row), ExternalTargets(row));
    LowerFree(OrEmpty(row.suggestedTarget));
  }

  lemma LowerFree(s: string)
    requires Free(s, '|')
    ensures Free(Lower(s), '|')
  {}

  lemma SameParts(a: Row, b: Row)
    requires Readable(a) && Readable(b) && Groupable(a.status) && Groupable(b.status)
    ensures KeyParts(a) == KeyParts(b) <==> SameFinding(a, b)
  {
    hide SortedLower, Join, Lower, SameNames, Unjoined, Free;
    SameNamesText(a.currentTargets, b.currentTargets);
    SameNamesText(a.forward, b.forward);
    SameNamesText(ExternalTargets(a), ExternalTargets(b));
    var p, q := KeyParts(a), KeyParts(b);
    assert p[0] == a.status && q[0] == b.status;
    if p == q || SameFinding(a, b) {
      SameLengthParts(a, b);
      assert p == q <==> forall i :: 0 <= i < |p| ==> p[i] == q[i];
    }
  }

  lemma SameLengthParts(a: Row, b: Row)
    requires a.status == b.status
    ensures |KeyParts(a)| == |KeyParts(b)|
    ensures KeyParts(a)[..7] == [a.status, a.horizon, OrEmpty(a.reverseZone), OrEmpty(a.reverseServer),
                                 if a.canWrite then "w" else "r", NamesText(a.currentTargets), NamesText(a.forward)]
    ensures KeyParts(b)[..7] == [b.status, b.horizon, OrEmpty(b.reverseZone), OrEmpty(b.reverseServer),
                                 if b.canWrite then "w" else "r", NamesText(b.currentTargets), NamesText(b.forward)]
    ensures a.status == "mismatch" ==>
              KeyParts(a)[7..] == [Lower(OrEmpty(a.suggestedTarget))] &&
              KeyParts(b)[7..] == [Lower(OrEmpty(b.suggestedTarget))]
    ensures a.status == "unhosted" ==>
              KeyParts(a)[7..] == [ExternalStatus(a), NamesText(ExternalTargets(a))] &&
              KeyParts(b)[7..] == [ExternalStatus(b), NamesText(ExternalTargets(b))]
    ensures a.status != "mismatch" && a.status != "unhosted" ==> KeyParts(a)[7..] == [] && KeyParts(b)[7..] == []
  {
    hide SortedLower, Join, Lower;
  }

  /** Two rows have one key exactly when they are the same finding. */
  lemma KeyIff(a: Row, b: Row)
    requires Readable(a) && Readable(b) && Groupable(a.status) && Groupable(b.status)
    ensures PtrGroupKey(a).Some? && PtrGroupKey(b).Some?
    ensures PtrGroupKey(a) == PtrGroupKey(b) <==> SameFinding(a, b)
  {
    hide KeyParts, SameFinding, Readable, Join, AllFree;
    PartsFree(a);
    PartsFree(b);
    SameParts(a, b);
    SomeParts(a);
    SomeParts(b);
    SplitJoin(KeyParts(a), '|');
    SplitJoin(KeyParts(b), '|');
    assert ("group:" + Join(KeyParts(a), "|"))[6..] == Join(KeyParts(a), "|");
    assert ("group:" + Join(KeyParts(b), "|"))[6..] == Join(KeyParts(b), "|");
  }

  lemma SomeParts(row: Row)
    ensures |KeyParts(row)| >= 1
  {
    hide SortedLower, Join, Lower;
  }

  /** Only these three statuses are ever folded. */
  lemma KeyOnly(row: Row)
    ensures PtrGroupKey(row).Some? <==> row.status in {"orphan", "mismatch", "unhosted"}
  {
    hide KeyParts, Join;
  }

  /** A name with a comma in it is not told from two names. */
  lemma CommaCollides(row: Row)
    requires Groupable(row.status)
    ensures var a, b := row.(currentTargets := ["x,y"]), row.(currentTargets := ["x", "y"]);
            PtrGroupKey(a).Some? && PtrGroupKey(a) == PtrGroupKey(b) && !SameFinding(a, b)
  {
    hide SortedLower;
    var one, two := ["x,y"], ["x", "y"];
    OneSorted();
    TwoSorted();
    assert Join(one, ",") == "x,y" && Join(two, ",") == "x,y" by {
      assert two[1..] == ["y"];
    }
    assert Named(one, "x,y") && !Named(two, "x,y") by {
      assert "x,y" in one && Lower("x,y") == "x,y";
    }
  }

  lemma OneSorted()
    ensures SortedLower(["x,y"]) == ["x,y"]
  {
    assert ["x,y"][..0] == [] && LowerSet([]) == [];
    assert Lower("x,y") == "x,y";
    assert LowerSet(["x,y"]) == ["x,y"];
    assert Sort<string>([], Precedes) == [];
  }

  lemma TwoSorted()
    ensures SortedLower(["x", "y"]) == ["x", "y"]
  {
    hide LowerSet, Sort, Lower, Precedes;
    TwoLower();
    SortedPair("x", "y");
  }

  lemma TwoLower()
    ensures LowerSet(["x", "y"]) == ["x", "y"] && !Precedes("y", "x")
  {
    var v := ["x", "y"];
    assert ["x"][..0] == [] && LowerSet([]) == [] && v[..1] == ["x"];
    assert Lower("x") == "x" && Lower("y") == "y";
    assert LowerSet(["x"]) == ["x"];
  }

  lemma SortedPair(a: string, b: string)
    requires !Precedes(b, a)
    ensures Sort([a, b], Precedes) == [a, b]
  {
    hide Precedes;
    assert [a][..0] == [] && [a, b][..1] == [a];
    assert Sort<string>([], Precedes) == [] && Sort([a], Precedes) == [a];
  }

  /* --------------------------------------------------- the order of addresses */

  /** The first octet that differs is smaller. */
  predicate OctetsBefore(o: seq<nat>, p: seq<nat>)
    requires ValidOctets(o) && ValidOctets(p)
  {
    o[0] < p[0] || (o[0] == p[0] && (o[1] < p[1] || (o[1] == p[1] && (o[2] < p[2] || (o[2] == p[2] && o[3] < p[3])))))
  }

  lemma OctetIs(n: nat)
    requires n < 256
    ensures OctetValue(ToDec(n)) == Some(n)
  {
    ToDecLength(n);
    ParseToDec(n);
  }

  lemma FoldNext(octets: seq<string>, n: nat, v: nat)
    requires n < 256 && Ipv4Fold(octets) == Some(v)
    ensures Ipv4Fold(octets + [ToDec(n)]) == Some(v * 256 + n)
  {
    hide OctetValue, ToDec;
    OctetIs(n);
    assert (octets + [ToDec(n)])[..|octets|] == octets;
  }

  predicate IsOctet(s: string) {
    1 <= |s| <= 3 && (forall i :: 0 <= i < |s| ==> '0' <= s[i] <= '9') && ParseDec(s) <= 255
  }

  /** What reads as an IPv4 address: four numerals of at most three digits and 255. */
  lemma Ipv4ValueIff(address: string)
    ensures var m := Split(address, '.');
            Ipv4Value(address).Some? <==> |m| == 4 && IsOctet(m[0]) && IsOctet(m[1]) && IsOctet(m[2]) && IsOctet(m[3])
  {
    hide Split, ParseDec;
    var m := Split(address, '.');
    if |m| == 4 {
      FoldStep(m);
      FoldStep(m[..3]);
      FoldStep(m[..3][..2]);
      FoldStep(m[..3][..2][..1]);
    }
  }

  lemma FoldStep(octets: seq<string>)
    requires octets != []
    ensures var n := |octets| - 1;
            Ipv4Fold(octets).Some? <==> Ipv4Fold(octets[..n]).Some? && IsOctet(octets[n])
  {
    hide ParseDec;
  }

  lemma QuadValue(o: seq<nat>)
    requires ValidOctets(o)
    ensures Ipv4Value(Quad(o).canonical) == Some(o[0] * 16777216 + o[1] * 65536 + o[2] * 256 + o[3])
  {
    hide Ipv4Fold, Split, ParseIpv4, ToDec, OctetValue;
    Ipv4RoundTrip(o);
    NothingFolded();
    FoldNext([], o[0], 0);
    assert [] + [ToDec(o[0])] == [ToDec(o[0])];
    FoldNext([ToDec(o[0])], o[1], o[0]);
    assert [ToDec(o[0])] + [ToDec(o[1])] == [ToDec(o[0]), ToDec(o[1])];
    FoldNext([ToDec(o[0]), ToDec(o[1])], o[2], o[0] * 256 + o[1]);
    assert [ToDec(o[0]), ToDec(o[1])] + [ToDec(o[2])] == [ToDec(o[0]), ToDec(o[1]), ToDec(o[2])];
    FoldNext([ToDec(o[0]), ToDec(o[1]), ToDec(o[2])], o[3], (o[0] * 256 + o[1]) * 256 + o[2]);
    assert Decimals(o) == [ToDec(o[0]), ToDec(o[1]), ToDec(o[2])] + [ToDec(o[3])];
  }

  lemma NothingFolded()
    ensures Ipv4Fold([]) == Some(0)
  {}

  /** IPv4 addresses go octet by octet. */
  lemma QuadOrder(o: seq<nat>, p: seq<nat>)
    requires ValidOctets(o) && ValidOctets(p)
    ensures CompareAddresses(Quad(o).canonical, Quad(p).canonical) < 0 <==> OctetsBefore(o, p)
  {
    hide Ipv4Value, ExpandAddress, Quad;
    QuadValue(o);
    QuadValue(p);
  }

  lemma TextHasNoQuad(h: string)
    requires |h| == 32 && AllHex(h)
    ensures Ipv4Value(Ipv6Text(h)).None?
  {
    hide Ipv6Text, Ipv4Fold, Split;
    Ipv6TextHasNoDot(h);
    SplitOfFree(Ipv6Text(h), '.');
  }

  /** Any IPv4 address is before any IPv6 address. */
  lemma FourBeforeSix(o: seq<nat>, h: string)
    requires ValidOctets(o) && |h| == 32 && AllHex(h)
    ensures CompareAddresses(Quad(o).canonical, Ipv6Text(h)) < 0 && CompareAddresses(Ipv6Text(h), Quad(o).canonical) > 0
  {
    hide Ipv4Value, ExpandAddress, Quad, Ipv6Text;
    QuadValue(o);
    TextHasNoQuad(h);
  }

  lemma PrecedesStep(a: string, b: string)
    requires a != "" && b != ""
    ensures Precedes(a, b) <==> a[0] < b[0] || (a[0] == b[0] && Precedes(a[1..], b[1..]))
  {}

  lemma {:induction false} PrecedesBehind(x: string, y: string, u: string, v: string)
    requires |x| == |y|
    ensures Precedes(x + u, y + v) <==> if x == y then Precedes(u, v) else Precedes(x, y)
  {
    hide Precedes;
    if x == "" {
      assert x + u == u && y + v == v;
    } else {
      PrecedesBehind(x[1..], y[1..], u, v);
      PrecedesStep(x + u, y + v);
      PrecedesStep(x, y);
      PrecedesAsymmetric(x[1..], x[1..]);
      assert (x + u)[1..] == x[1..] + u && (y + v)[1..] == y[1..] + v;
      assert x == [x[0]] + x[1..] && y == [y[0]] + y[1..];
    }
  }

  function Concat(groups: seq<string>): string {
    if groups == [] then "" else groups[0] + Concat(groups[1..])
  }

  predicate Fours(groups: seq<string>) {
    forall i :: 0 <= i < |groups| ==> |groups[i]| == 4
  }

  lemma {:induction false} GroupsBefore(a: seq<string>, b: seq<string>)
    requires |a| == |b| && Fours(a) && Fours(b)
    ensures Precedes(Join(a, ":"), Join(b, ":")) <==> Precedes(Concat(a), Concat(b))
  {
    if |a| == 1 {
      assert a[1..] == [] && b[1..] == [];
      assert a[0] + "" == a[0] && b[0] + "" == b[0];
    } else if |a| > 1 {
      GroupsBefore(a[1..], b[1..]);
      PrecedesBehind(a[0], b[0], Concat(a[1..]), Concat(b[1..]));
      PrecedesBehind(a[0] + ":", b[0] + ":", Join(a[1..], ":"), Join(b[1..], ":"));
      PrecedesBehind(a[0], b[0], ":", ":");
      PrecedesAsymmetric(":", ":");
      assert (a[0] + ":")[..4] == a[0] && (b[0] + ":")[..4] == b[0];
    }
  }

  lemma {:induction false} ConcatFrom(h: string, i: nat)
    requires |h| == 32 && i <= 8
    ensures Concat(FourGroups(h)[i..]) == h[4 * i..]
    decreases 8 - i
  {
    if i < 8 {
      ConcatFrom(h, i + 1);
      assert FourGroups(h)[i..][1..] == FourGroups(h)[i + 1..];
      assert h[4 * i..] == h[4 * i..4 * i + 4] + h[4 * i + 4..];
    }
  }

  lemma ExpandsTo(h: string)
    requires |h| == 32 && AllHex(h)
    ensures ExpandAddress(Ipv6Text(h)) == Join(FourGroups(h), ":")
  {
    hide ExpandIpv6, Ipv6Text, Trim, FourGroups, Join;
    Ipv6RoundTrip(h);
    Ipv6TextHasNoDot(h);
    PlainIsFixed(Ipv6Text(h));
    ExpandersAgreeIff(Ipv6Text(h));
  }

  /** IPv6 addresses go digit by digit. */
  lemma HexOrder(g: string, h: string)
    requires |g| == |h| == 32 && AllHex(g) && AllHex(h)
    ensures CompareAddresses(Ipv6Text(g), Ipv6Text(h)) < 0 <==> Precedes(g, h)
  {
    hide Ipv6Text, Ipv4Value, ExpandAddress, Join, FourGroups, Precedes, Concat;
    TextHasNoQuad(g);
    TextHasNoQuad(h);
    ExpandsTo(g);
    ExpandsTo(h);
    ConcatFrom(g, 0);
    ConcatFrom(h, 0);
    assert FourGroups(g)[0..] == FourGroups(g) && FourGroups(h)[0..] == FourGroups(h);
    GroupsBefore(FourGroups(g), FourGroups(h));
  }
}
