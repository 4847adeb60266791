/** Addresses and their reverse-DNS owner names: the parser of both families, the
    printer, RFC 2317 classless zones, and the choice of the hosted reverse zone. */
module ReverseName {
  import opened Options
  import opened Text
  import Bits

  /* ------------------------------------------------------------- parsing */

  /** `\d{1,3}` */
  predicate ShortNumber(part: string) {
    1 <= |part| <= 3 && AllDigits(part)
  }

  function Octet(part: string): (r: Option<nat>)
    ensures r.Some? ==> r.value < 256
  {
    if !ShortNumber(part) || (|part| > 1 && part[0] == '0') || ParseDec(part) > 255 then None
    else Some(ParseDec(part))
  }

  function Octets(parts: seq<string>): (r: Option<seq<nat>>)
    ensures r.Some? <==> forall i :: 0 <= i < |parts| ==> Octet(parts[i]).Some?
    ensures r.Some? ==> |r.value| == |parts| && forall i :: 0 <= i < |parts| ==> Octet(parts[i]) == Some(r.value[i])
  {
    if parts == [] then Some([])
    else
      var init, last := Octets(parts[..|parts| - 1]), Octet(parts[|parts| - 1]);
      if init.None? || last.None? then None else Some(init.value + [last.value])
  }

  function ParseIpv4(text: string): (r: Option<seq<nat>>)
    ensures r.Some? ==> |r.value| == 4 && forall i :: 0 <= i < 4 ==> r.value[i] < 256
  {
    var parts := Split(Trim(text), '.');
    if |parts| != 4 then None else Octets(parts)
  }

  method ParseIpv4Loop(text: string) returns (r: Option<seq<nat>>)
    ensures r == ParseIpv4(text)
  {
    hide Split, Trim, ParseDec;
    var m := Split(Trim(text), '.');
    if |m| != 4 || !ShortNumber(m[0]) || !ShortNumber(m[1]) || !ShortNumber(m[2]) || !ShortNumber(m[3]) {
      return None;
    }
    var octets := [];
    for i := 0 to 4
      invariant |octets| == i
      invariant forall j :: 0 <= j < i ==> Octet(m[j]) == Some(octets[j])
    {
      var part := m[i];
      if |part| > 1 && part[0] == '0' { return None; }
      var n := ParseDec(part);
      if n > 255 { return None; }
      octets := octets + [n];
    }
    assert Octets(m).value == octets;
    return Some(octets);
  }

  predicate Ipv6Char(c: char) {
    IsHex(c) || c == ':' || c == '.'
  }

  predicate AllIpv6Chars(s: string) {
    forall i :: 0 <= i < |s| ==> Ipv6Char(s[i])
  }

  /** `s.lastIndexOf(c)` */
  function LastIndexOf(s: string, c: char): (i: int)
    ensures -1 <= i < |s|
    ensures i >= 0 ==> s[i] == c
    ensures forall j :: i < j < |s| ==> s[j] != c
  {
    if s == "" then -1
    else if s[|s| - 1] == c then |s| - 1
    else LastIndexOf(s[..|s| - 1], c)
  }

  /** `s.split("::")` */
  function SplitDouble(s: string): (r: seq<string>)
    ensures |r| >= 1
  {
    if |s| < 2 then [s]
    else if s[0] == ':' && s[1] == ':' then [""] + SplitDouble(s[2..])
    else
      var r := SplitDouble(s[1..]);
      [[s[0]] + r[0]] + r[1..]
  }

  predicate TripleColon(s: string) {
    exists i :: 0 <= i < |s| - 2 && s[i] == ':' && s[i + 1] == ':' && s[i + 2] == ':'
  }

  predicate GroupSized(g: string) {
    1 <= |g| <= 4
  }

  function Groups(part: string): (r: Option<seq<string>>)
    ensures r.Some? ==> forall i :: 0 <= i < |r.value| ==> GroupSized(r.value[i])
  {
    if part == "" then Some([])
    else
      var out := Split(part, ':');
      if forall i :: 0 <= i < |out| ==> GroupSized(out[i]) then Some(out) else None
  }

  /** `groups.map((g) => g.padStart(4, "0")).join("")` */
  function Padded(groups: seq<string>): (r: string)
    ensures (forall i :: 0 <= i < |groups| ==> |groups[i]| <= 4) ==> |r| == 4 * |groups|
  {
    if groups == [] then "" else PadZeros(groups[0], 4) + Padded(groups[1..])
  }

  /** The colon-separated part in front of an embedded dotted quad, and the quad's two groups. */
  function DottedTail(s: string): Option<(string, seq<string>)> {
    var lastColon := LastIndexOf(s, ':');
    if lastColon == -1 || '.' !in s[lastColon + 1..] then (if '.' in s then None else Some((s, [])))
    else
      var v4 := ParseIpv4(s[lastColon + 1..]);
      if v4.None? then None
      else
        var body := s[..lastColon + 1];
        Some((if EndsWith(body, "::") then body else body[..|body| - 1],
              [ToHex(v4.value[0] * 256 + v4.value[1]), ToHex(v4.value[2] * 256 + v4.value[3])]))
  }

  function Assemble(body: string, tail: seq<string>): Option<string> {
    var halves := SplitDouble(body);
    if |halves| > 2 then None
    else
      var head := Groups(halves[0]);
      var rest := if |halves| == 2 then Groups(halves[1]) else Some([]);
      if head.None? || rest.None? then None
      else
        var given := |head.value| + |rest.value| + |tail|;
        if |halves| == 2 then
          if given > 7 then None
          else Some(Padded(head.value + Repeat("0", 8 - given) + rest.value + tail))
        else if given != 8 then None
        else Some(Padded(head.value + tail))
  }

  function ExpandIpv6(text: string): Option<string> {
    var s := Lower(Trim(text));
    if s == "" || !AllIpv6Chars(s) || TripleColon(s) then None
    else
      var t := DottedTail(s);
      if t.None? then None else Assemble(t.value.0, t.value.1)
  }

  lemma PercentRejected(s: string)
    ensures '%' in s ==> !AllIpv6Chars(s)
  {}

  method ExpandIpv6Steps(text: string) returns (r: Option<string>)
    ensures r == ExpandIpv6(text)
  {
    hide Lower, Trim, ParseIpv4, LastIndexOf, TripleColon, Assemble, ToHex, EndsWith, AllIpv6Chars;
    var s := Lower(Trim(text));
    PercentRejected(s);
    if s == "" || '%' in s || !AllIpv6Chars(s) { return None; }
    if TripleColon(s) { return None; }
    var body := s;
    var tail: seq<string> := [];
    var lastColon := LastIndexOf(body, ':');
    if lastColon != -1 && '.' in body[lastColon + 1..] {
      var v4 := ParseIpv4Loop(body[lastColon + 1..]);
      if v4.None? { return None; }
      tail := [ToHex(v4.value[0] * 256 + v4.value[1]), ToHex(v4.value[2] * 256 + v4.value[3])];
      body := body[..lastColon + 1];
      if !EndsWith(body, "::") { body := body[..|body| - 1]; }
    } else if '.' in body {
      return None;
    }
    assert DottedTail(s) == Some((body, tail));
    r := AssembleSteps(body, tail);
  }

  method AssembleSteps(body: string, tail: seq<string>) returns (r: Option<string>)
    ensures r == Assemble(body, tail)
  {
    hide SplitDouble, Groups, Padded, Repeat;
    var halves := SplitDouble(body);
    if |halves| > 2 { return None; }
    var head := Groups(halves[0]);
    var rest := if |halves| == 2 then Groups(halves[1]) else Some([]);
    if head.None? || rest.None? { return None; }
    var given := |head.value| + |rest.value| + |tail|;
    if |halves| == 2 {
      if given > 7 { return None; }
      return Some(Padded(head.value + Repeat("0", 8 - given) + rest.value + tail));
    }
    if given != 8 { return None; }
    return Some(Padded(head.value + tail));
  }

  datatype ParsedIp = ParsedIp(family: int, canonical: string)

  function Decimals(octets: seq<nat>): (r: seq<string>)
    ensures |r| == |octets| && forall i :: 0 <= i < |r| ==> r[i] == ToDec(octets[i])
  {
    seq(|octets|, i requires 0 <= i < |octets| => ToDec(octets[i]))
  }

  function ParseIp(text: string): Option<ParsedIp> {
    var v4 := ParseIpv4(text);
    if v4.Some? then Some(ParsedIp(4, Join(Decimals(v4.value), ".")))
    else
      var v6 := ExpandIpv6(text);
      if v6.Some? then Some(ParsedIp(6, v6.value)) else None
  }

  method ParseIpSteps(text: string) returns (r: Option<ParsedIp>)
    ensures r == ParseIp(text)
  {
    hide ParseIpv4, ExpandIpv6;
    var v4 := ParseIpv4Loop(text);
    if v4.Some? { return Some(ParsedIp(4, Join(Decimals(v4.value), "."))); }
    var v6 := ExpandIpv6Steps(text);
    if v6.Some? { return Some(ParsedIp(6, v6.value)); }
    return None;
  }

  function Reversed<T>(s: seq<T>): (r: seq<T>)
    ensures |r| == |s| && forall i :: 0 <= i < |r| ==> r[i] == s[|s| - 1 - i]
  {
    seq(|s|, i requires 0 <= i < |s| => s[|s| - 1 - i])
  }

  /** `s.split("")` */
  function Chars(s: string): (r: seq<string>)
    ensures |r| == |s| && forall i :: 0 <= i < |r| ==> r[i] == [s[i]]
  {
    seq(|s|, i requires 0 <= i < |s| => [s[i]])
  }

  const IN_ADDR := ".in-addr.arpa."
  const IP6 := ".ip6.arpa."

  function OwnerOf(p: ParsedIp): string {
    if p.family == 4 then Join(Reversed(Split(p.canonical, '.')), ".") + IN_ADDR
    else Join(Reversed(Chars(p.canonical)), ".") + IP6
  }

  function ReverseOwnerName(ip: string): Option<string> {
    var p := ParseIp(ip);
    if p.None? then None else Some(OwnerOf(p.value))
  }

  predicate SameAddress(a: string, b: string) {
    var pa, pb := ParseIp(a), ParseIp(b);
    if pa.None? || pb.None? then Trim(a) == Trim(b) else pa == pb
  }

  /* ------------------------------------------------------- reverse zones */

  function StripDots(s: string): (r: string)
    ensures |r| <= |s| && r == s[..|r|]
    ensures r == "" || r[|r| - 1] != '.'
  {
    if s != "" && s[|s| - 1] == '.' then StripDots(s[..|s| - 1]) else s
  }

  /** Lower case with exactly one trailing dot. */
  function CanonicalZone(name: string): (r: string)
    ensures r != "" && r[|r| - 1] == '.'
    ensures |r| > 1 ==> r[|r| - 2] != '.'
  {
    hide *;
    var stripped := StripDots(Lower(Trim(name)));
    stripped + "."
  }

  /** Where the leading run of digits ends. */
  function DigitsEnd(s: string): (i: nat)
    ensures i <= |s| && AllDigits(s[..i]) && (i < |s| ==> !IsDigit(s[i]))
  {
    if s == "" || !IsDigit(s[0]) then 0
    else
      var i := DigitsEnd(s[1..]);
      assert s[..i + 1] == [s[0]] + s[1..][..i];
      i + 1
  }

  /** `\d{1,3}[/-]\d{1,3}` */
  predicate IsBlockLabel(text: string) {
    var i := DigitsEnd(text);
    i < |text| && (text[i] == '/' || text[i] == '-') &&
    ShortNumber(text[..i]) && ShortNumber(text[i + 1..])
  }

  datatype Block = Block(first: nat, last: nat, parentLabels: string)

  predicate IsBlockZone(m: seq<string>) {
    |m| == 7 && IsBlockLabel(m[0]) && ShortNumber(m[1]) && ShortNumber(m[2]) && ShortNumber(m[3]) &&
    m[4] == "in-addr" && m[5] == "arpa" && m[6] == ""
  }

  function ParseClasslessZone(zone: string): (r: Option<Block>)
    ensures r.Some? ==> r.value.first <= r.value.last
  {
    var m := Split(zone, '.');
    if !IsBlockZone(m) then None
    else
      var i := DigitsEnd(m[0]);
      var first, n := ParseDec(m[0][..i]), ParseDec(m[0][i + 1..]);
      var parent := Join(m[1..4], ".");
      if first > 255 then None
      else if m[0][i] == '/' then
        if n < 25 || n > 32 then None
        else
          var size := Bits.Pow2(32 - n);
          if first % size != 0 then None else Some(Block(first, first + size - 1, parent))
      else if n > 255 || n < first then None
      else Some(Block(first, n, parent))
  }

  datatype ReverseZoneMatch = ReverseZoneMatch(zone: string, owner: string, classless: bool)

  /** The zones as the `Set` built from them iterates: canonical, first occurrences. */
  function Hosted(zones: seq<string>): seq<string> {
    if zones == [] then []
    else
      var r, z := Hosted(zones[..|zones| - 1]), CanonicalZone(zones[|zones| - 1]);
      if z in r then r else r + [z]
  }

  predicate CoversOctet(zone: string, parentLabels: string, octet: nat) {
    var b := ParseClasslessZone(zone);
    b.Some? && b.value.parentLabels == parentLabels && b.value.first <= octet <= b.value.last
  }

  function Span(zone: string): int {
    var b := ParseClasslessZone(zone);
    if b.Some? then b.value.last - b.value.first else 256
  }

  /** The first covering block of minimal span. */
  function BestBlock(hosted: seq<string>, parentLabels: string, octet: nat): (r: Option<string>)
    ensures r.None? <==> forall z :: z in hosted ==> !CoversOctet(z, parentLabels, octet)
    ensures r.Some? ==> r.value in hosted && CoversOctet(r.value, parentLabels, octet)
    ensures r.Some? ==> forall z :: z in hosted && CoversOctet(z, parentLabels, octet) ==> Span(r.value) <= Span(z)
  {
    if hosted == [] then None
    else
      var init, z := BestBlock(hosted[..|hosted| - 1], parentLabels, octet), hosted[|hosted| - 1];
      assert hosted == hosted[..|hosted| - 1] + [z];
      if CoversOctet(z, parentLabels, octet) && (init.None? || Span(z) < Span(init.value)) then Some(z) else init
  }

  /** The first hosted name among the owner's suffixes from label i on. */
  function WalkSuffixes(labels: seq<string>, i: nat, hosted: seq<string>): (r: Option<string>)
    requires i <= |labels|
    decreases |labels| - i
  {
    if i + 1 >= |labels| then None
    else if Join(labels[i..], ".") in hosted then Some(Join(labels[i..], "."))
    else WalkSuffixes(labels, i + 1, hosted)
  }

  /** The three labels of the address's /24, and its last octet. */
  function ParentLabels(octets: seq<string>): string
    requires |octets| == 4
  {
    octets[2] + "." + octets[1] + "." + octets[0]
  }

  function ClasslessMatch(p: ParsedIp, hosted: seq<string>): Option<string> {
    var parts := Split(p.canonical, '.');
    if p.family != 4 || |parts| != 4 || !AllDigits(parts[3]) then None
    else BestBlock(hosted, ParentLabels(parts), ParseDec(parts[3]))
  }

  function MatchFor(p: ParsedIp, hosted: seq<string>): Option<ReverseZoneMatch> {
    var best := ClasslessMatch(p, hosted);
    if best.Some? then
      Some(ReverseZoneMatch(best.value, Split(p.canonical, '.')[3] + "." + best.value, true))
    else
      var z := WalkSuffixes(Split(OwnerOf(p), '.'), 1, hosted);
      if z.Some? then Some(ReverseZoneMatch(z.value, OwnerOf(p), false)) else None
  }

  function FindReverseZone(ip: string, zones: seq<string>): Option<ReverseZoneMatch> {
    var p := ParseIp(ip);
    if p.None? then None else MatchFor(p.value, Hosted(zones))
  }

  lemma HostedStep(zones: seq<string>, i: nat)
    requires i < |zones|
    ensures var r, z := Hosted(zones[..i]), CanonicalZone(zones[i]);
            Hosted(zones[..i + 1]) == if z in r then r else r + [z]
  {
    hide CanonicalZone;
    assert zones[..i + 1][..i] == zones[..i];
  }

  lemma BestStep(hosted: seq<string>, i: nat, parentLabels: string, octet: nat)
    requires i < |hosted|
    ensures var init, z := BestBlock(hosted[..i], parentLabels, octet), hosted[i];
            BestBlock(hosted[..i + 1], parentLabels, octet) ==
            if CoversOctet(z, parentLabels, octet) && (init.None? || Span(z) < Span(init.value)) then Some(z) else init
  {
    hide CoversOctet, Span;
    assert hosted[..i + 1][..i] == hosted[..i];
  }

  method FindReverseZoneLoop(ip: string, hostedZones: seq<string>) returns (r: Option<ReverseZoneMatch>)
    ensures r == FindReverseZone(ip, hostedZones)
  {
    hide ParseIp, OwnerOf, CanonicalZone, Split, Join, ParseClasslessZone, ParseDec, ParentLabels, BestBlock;
    var parsed := ParseIpSteps(ip);
    var owner := ReverseOwnerName(ip);
    if parsed.None? || owner.None? { return None; }
    var hosted := [];
    for i := 0 to |hostedZones|
      invariant hosted == Hosted(hostedZones[..i])
    {
      HostedStep(hostedZones, i);
      var z := CanonicalZone(hostedZones[i]);
      if z !in hosted { hosted := hosted + [z]; }
    }
    assert hostedZones[..|hostedZones|] == hostedZones;
    var octets := Split(parsed.value.canonical, '.');
    if parsed.value.family == 4 && |octets| == 4 && AllDigits(octets[3]) {
      var parentLabels, last := ParentLabels(octets), ParseDec(octets[3]);
      var best: Option<ReverseZoneMatch> := None;
      for i := 0 to |hosted|
        invariant best == match BestBlock(hosted[..i], parentLabels, last)
                          case None => None
                          case Some(z) => Some(ReverseZoneMatch(z, octets[3] + "." + z, true))
      {
        BestStep(hosted, i, parentLabels, last);
        var zone := hosted[i];
        var block := ParseClasslessZone(zone);
        if block.None? || block.value.parentLabels != parentLabels { continue; }
        if last < block.value.first || last > block.value.last { continue; }
        if best.None? || block.value.last - block.value.first < Span(best.value.zone) {
          best := Some(ReverseZoneMatch(zone, octets[3] + "." + zone, true));
        }
      }
      assert hosted[..|hosted|] == hosted;
      if best.Some? { return best; }
    }
    var labels := Split(owner.value, '.');
    var i := 1;
    while i < |labels| - 1
      invariant 1 <= i <= |labels|
      invariant WalkSuffixes(labels, i, hosted) == WalkSuffixes(labels, 1, hosted)
    {
      var candidate := Join(labels[i..], ".");
      if candidate in hosted { return Some(ReverseZoneMatch(candidate, owner.value, false)); }
      i := i + 1;
    }
    return None;
  }

  /* ----------------------------------------------- owner back to address */

  function WithoutFinalDot(s: string): string {
    if s != "" && s[|s| - 1] == '.' then s[..|s| - 1] else s
  }

  /** The labels of `d.[block.]c.b.a.in-addr.arpa`, or None. */
  function Ipv4FromLabels(m: seq<string>): Option<string> {
    var n := |m|;
    if (n == 6 || (n == 7 && IsBlockLabel(m[1]))) &&
       ShortNumber(m[0]) && ShortNumber(m[n - 5]) && ShortNumber(m[n - 4]) && ShortNumber(m[n - 3]) &&
       m[n - 2] == "in-addr" && m[n - 1] == "arpa"
    then Some(Join([m[n - 3], m[n - 4], m[n - 5], m[0]], "."))
    else None
  }

  predicate AreNibbles(m: seq<string>) {
    |m| == 34 && m[32] == "ip6" && m[33] == "arpa" &&
    forall i :: 0 <= i < 32 ==> |m[i]| == 1 && IsHex(m[i][0])
  }

  /** `hex.match(/.{4}/g).map((g) => parseInt(g, 16).toString(16))` */
  function ShortGroups(hex: string): (r: seq<string>)
    requires |hex| % 4 == 0 && AllHex(hex)
    ensures |r| == |hex| / 4
    ensures forall i :: 0 <= i < |r| ==> r[i] == ToHex(ParseHex(hex[4 * i..4 * i + 4]))
  {
    seq(|hex| / 4, i requires 0 <= i < |hex| / 4 => ToHex(ParseHex(hex[4 * i..4 * i + 4])))
  }

  /** End of the run of zero groups from i on. */
  function RunEnd(groups: seq<string>, i: nat): (j: nat)
    requires i <= |groups|
    ensures i <= j <= |groups|
    ensures forall k :: i <= k < j ==> groups[k] == "0"
    ensures j < |groups| ==> groups[j] != "0"
    decreases |groups| - i
  {
    if i < |groups| && groups[i] == "0" then RunEnd(groups, i + 1) else i
  }

  datatype Run = Run(start: int, len: nat)

  /** The scan for the longest run of zero groups, from group i with the best so far. */
  function ScanRuns(groups: seq<string>, i: nat, best: Run): Run
    requires i <= |groups|
    decreases |groups| - i
  {
    if i == |groups| then best
    else if groups[i] != "0" then ScanRuns(groups, i + 1, best)
    else
      var j := RunEnd(groups, i);
      ScanRuns(groups, j, if j - i > best.len then Run(i, j - i) else best)
  }

  function LongestRun(groups: seq<string>): Run {
    ScanRuns(groups, 0, Run(-1, 0))
  }

  method LongestRunLoop(groups: seq<string>) returns (bestStart: int, bestLen: nat)
    ensures Run(bestStart, bestLen) == LongestRun(groups)
  {
    bestStart, bestLen := -1, 0;
    var i := 0;
    while i < |groups|
      invariant 0 <= i <= |groups|
      invariant ScanRuns(groups, i, Run(bestStart, bestLen)) == LongestRun(groups)
      decreases |groups| - i
    {
      if groups[i] != "0" {
        i := i + 1;
        continue;
      }
      var j := i;
      while j < |groups| && groups[j] == "0"
        invariant i <= j <= |groups| && RunEnd(groups, j) == RunEnd(groups, i)
      {
        j := j + 1;
      }
      assert RunEnd(groups, j) == j;
      if j - i > bestLen {
        bestStart := i;
        bestLen := j - i;
      }
      i := j;
    }
  }

  /** The text of the groups with the run left out when it is worth it. */
  function Compressed(groups: seq<string>, run: Run): string {
    if run.len >= 2 && 0 <= run.start && run.start + run.len <= |groups| then
      Join(groups[..run.start], ":") + "::" + Join(groups[run.start + run.len..], ":")
    else Join(groups, ":")
  }

  function Ipv6Text(hex: string): string
    requires |hex| % 4 == 0 && AllHex(hex)
  {
    var groups := ShortGroups(hex);
    Compressed(groups, LongestRun(groups))
  }

  function NibbleHex(m: seq<string>): (hex: string)
    requires AreNibbles(m)
    ensures |hex| == 32 && AllHex(hex)
    ensures forall i :: 0 <= i < 32 ==> hex[i] == m[31 - i][0]
  {
    seq(32, i requires 0 <= i < 32 => m[31 - i][0])
  }

  function IpFromReverseOwner(owner: string): Option<string> {
    var m := Split(WithoutFinalDot(Lower(Trim(owner))), '.');
    var v4 := Ipv4FromLabels(m);
    if v4.Some? then (if ParseIpv4(v4.value).Some? then v4 else None)
    else if AreNibbles(m) then Some(Ipv6Text(NibbleHex(m)))
    else None
  }
}
