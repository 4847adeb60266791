/** Folding reconciler rows that are the same finding into groups, the address order the
    members are shown in, and the second IPv6 expander that order rests on. */
module PtrRowGroups {
  import opened Options
  import opened Text
  import opened Sorting
  import opened ReverseName
  import Bits

  datatype External = External(status: string, targets: seq<string>)

  datatype Row = Row(
    id: string,
    ip: string,
    status: string,
    horizon: string,
    reverseZone: Option<string>,
    reverseServer: Option<string>,
    forward: seq<string>,
    currentTargets: seq<string>,
    suggestedTarget: Option<string>,
    canWrite: bool,
    external: Option<External>)

  datatype Group = Group(id: string, lead: Row, members: seq<Row>)

  const MIN_GROUP_SIZE := 2

  /* ------------------------------------------------------------- the key */

  function SortedLower(values: seq<string>): seq<string> {
    Sort(LowerSet(values), Precedes)
  }

  function OrEmpty(s: Option<string>): string {
    if s.Some? then s.value else ""
  }

  predicate Groupable(status: string) {
    status == "orphan" || status == "mismatch" || status == "unhosted"
  }

  function KeyParts(row: Row): seq<string> {
    [row.status, row.horizon, OrEmpty(row.reverseZone), OrEmpty(row.reverseServer),
     if row.canWrite then "w" else "r",
     Join(SortedLower(row.currentTargets), ","), Join(SortedLower(row.forward), ",")] +
    (if row.status == "mismatch" then [Lower(OrEmpty(row.suggestedTarget))] else []) +
    (if row.status == "unhosted" then
       [if row.external.Some? then row.external.value.status else "pending",
        Join(SortedLower(if row.external.Some? then row.external.value.targets else []), ",")]
     else [])
  }

  function PtrGroupKey(row: Row): Option<string> {
    if !Groupable(row.status) then None else Some("group:" + Join(KeyParts(row), "|"))
  }

  function Key(row: Row, enabled: bool): Option<string> {
    if enabled then PtrGroupKey(row) else None
  }

  /* --------------------------------------------------- the address order */

  /** `/^\d{1,3}$/`, at most 255; leading zeros pass here. */
  function OctetValue(octet: string): Option<nat> {
    if ShortNumber(octet) && ParseDec(octet) <= 255 then Some(ParseDec(octet)) else None
  }

  function Ipv4Fold(octets: seq<string>): Option<nat> {
    if octets == [] then Some(0)
    else
      var init, n := Ipv4Fold(octets[..|octets| - 1]), OctetValue(octets[|octets| - 1]);
      if init.None? || n.None? then None else Some(init.value * 256 + n.value)
  }

  function Ipv4Value(address: string): Option<nat> {
    var octets := Split(address, '.');
    if |octets| != 4 then None else Ipv4Fold(octets)
  }

  /** `\d+\.\d+\.\d+\.\d+` */
  predicate IsQuad(s: string) {
    var m := Split(s, '.');
    |m| == 4 && forall i :: 0 <= i < 4 ==> m[i] != "" && AllDigits(m[i])
  }

  /** Where the leftmost quad ending the text begins, or -1. */
  function QuadStart(s: string): (i: int)
    ensures -1 <= i < |s| || i == -1
    ensures i >= 0 ==> IsQuad(s[i..])
    ensures forall j :: 0 <= j < (if i < 0 then |s| else i) ==> !IsQuad(s[j..])
  {
    if s == "" then -1
    else if IsQuad(s) then
      assert s[0..] == s;
      0
    else
      var i := QuadStart(s[1..]);
      assert forall j :: 1 <= j < |s| ==> s[1..][j - 1..] == s[j..];
      assert s[0..] == s;
      if i < 0 then -1 else i + 1
  }

  /** `n.toString(16)` of a 32-bit integer. */
  function SignedHex(n: int): string {
    if n < 0 then "-" + ToHex(-n) else ToHex(n)
  }

  /** `((a << 8) | b).toString(16)` */
  function TwoOctets(a: nat, b: nat): string {
    SignedHex(Bits.Signed(Bits.Or(Bits.Shl(a, 8), Bits.Word(b))))
  }

  function WithoutQuad(text: string): string {
    var i := QuadStart(text);
    if i < 0 then text
    else
      var m := Split(text[i..], '.');
      text[..i] + TwoOctets(ParseDec(m[0]), ParseDec(m[1])) + ":" + TwoOctets(ParseDec(m[2]), ParseDec(m[3]))
  }

  function Part(half: string): seq<string> {
    if half == "" then [] else Split(half, ':')
  }

  /** `/^[0-9a-f]{1,4}$/` */
  predicate IsHextet(h: string) {
    1 <= |h| <= 4 && AllHex(h)
  }

  /** The eight hextets of the text, or None where the code gives the address back. */
  function Hextets(text: string): (r: Option<seq<string>>)
    ensures r.Some? ==> |r.value| == 8 && forall i :: 0 <= i < 8 ==> IsHextet(r.value[i])
  {
    var halves := SplitDouble(text);
    if |halves| > 2 then None
    else
      var head, tail := Part(halves[0]), if |halves| == 2 then Part(halves[1]) else [];
      if |head| + |tail| > 8 || (|halves| == 1 && |head| + |tail| != 8) then None
      else
        var h := head + Repeat("0", 8 - |head| - |tail|) + tail;
        if forall i :: 0 <= i < 8 ==> IsHextet(h[i]) then Some(h) else None
  }

  function PadEach(h: seq<string>): (r: seq<string>)
    ensures |r| == |h| && forall i :: 0 <= i < |r| ==> r[i] == PadZeros(h[i], 4)
  {
    seq(|h|, i requires 0 <= i < |h| => PadZeros(h[i], 4))
  }

  function ExpandAddress(address: string): string {
    var h := Hextets(WithoutQuad(Split(Lower(address), '%')[0]));
    if h.None? then Lower(address) else Join(PadEach(h.value), ":")
  }

  /** Numeric order of addresses: negative, zero or positive. */
  function CompareAddresses(a: string, b: string): int {
    var a4, b4 := Ipv4Value(a), Ipv4Value(b);
    if a4.Some? && b4.Some? then a4.value - b4.value
    else if a4.Some? then -1
    else if b4.Some? then 1
    else
      var a6, b6 := ExpandAddress(a), ExpandAddress(b);
      if Precedes(a6, b6) then -1 else if Precedes(b6, a6) then 1 else 0
  }

  predicate RowBefore(x: Row, y: Row) {
    CompareAddresses(x.ip, y.ip) < 0
  }

  /* ---------------------------------------------------------- the groups */

  /** The rows sharing a key, in their order. */
  function WithKey(rows: seq<Row>, enabled: bool, key: string): seq<Row> {
    if rows == [] then []
    else
      var init, r := WithKey(rows[..|rows| - 1], enabled, key), rows[|rows| - 1];
      if Key(r, enabled) == Some(key) then init + [r] else init
  }

  /** The rows that open a group: those never folded, and the first one of each key. */
  function Openers(rows: seq<Row>, enabled: bool): seq<Row> {
    if rows == [] then []
    else
      var init, r := rows[..|rows| - 1], rows[|rows| - 1];
      var k := Key(r, enabled);
      if k.Some? && WithKey(init, enabled, k.value) != [] then Openers(init, enabled)
      else Openers(init, enabled) + [r]
  }

  /** The rows folded with an opener, itself included. */
  function Bucket(rows: seq<Row>, enabled: bool, opener: Row): seq<Row> {
    var k := Key(opener, enabled);
    if k.None? then [opener] else WithKey(rows, enabled, k.value)
  }

  function GroupOf(rows: seq<Row>, enabled: bool, opener: Row): Group {
    var b := Bucket(rows, enabled, opener);
    if |b| < MIN_GROUP_SIZE then Group(opener.id, opener, [opener])
    else
      var members := Sort(b, RowBefore);
      Group(Key(opener, enabled).value, if members == [] then opener else members[0], members)
  }

  function GroupsFor(rows: seq<Row>, enabled: bool, openers: seq<Row>): (r: seq<Group>)
    ensures |r| == |openers| && forall i :: 0 <= i < |r| ==> r[i] == GroupOf(rows, enabled, openers[i])
  {
    seq(|openers|, i requires 0 <= i < |openers| => GroupOf(rows, enabled, openers[i]))
  }

  function Grouping(rows: seq<Row>, enabled: bool): seq<Group> {
    GroupsFor(rows, enabled, Openers(rows, enabled))
  }

  datatype Entry = OfKey(key: string) | OfRow(row: Row)

  function EntryOf(row: Row, enabled: bool): Entry {
    var k := Key(row, enabled);
    if k.Some? then OfKey(k.value) else OfRow(row)
  }

  lemma {:induction false} OpenerOf(rows: seq<Row>, enabled: bool, i: nat)
    requires i < |Openers(rows, enabled)|
    ensures var o := Openers(rows, enabled)[i];
            Key(o, enabled).Some? ==> |Bucket(rows, enabled, o)| >= 1 && Bucket(rows, enabled, o)[0] == o
  {
    hide Key;
    var n := |rows| - 1;
    var init, r := rows[..n], rows[n];
    if i < |Openers(init, enabled)| {
      OpenerOf(init, enabled, i);
    } else if Key(r, enabled).Some? {
      assert WithKey(init, enabled, Key(r, enabled).value) == [];
    }
  }

  /** The first loop: rows pooled by key, entries in first-occurrence order. */
  method PoolRows(rows: seq<Row>, enabled: bool) returns (buckets: map<string, seq<Row>>, order: seq<Entry>)
    ensures |order| == |Openers(rows, enabled)|
    ensures forall j :: 0 <= j < |order| ==> order[j] == EntryOf(Openers(rows, enabled)[j], enabled)
    ensures forall k :: k in buckets <==> WithKey(rows, enabled, k) != []
    ensures forall k :: k in buckets ==> buckets[k] == WithKey(rows, enabled, k)
  {
    hide PtrGroupKey;
    buckets, order := map[], [];
    for i := 0 to |rows|
      invariant |order| == |Openers(rows[..i], enabled)|
      invariant forall j :: 0 <= j < |order| ==> order[j] == EntryOf(Openers(rows[..i], enabled)[j], enabled)
      invariant forall k :: k in buckets <==> WithKey(rows[..i], enabled, k) != []
      invariant forall k :: k in buckets ==> buckets[k] == WithKey(rows[..i], enabled, k)
    {
      assert rows[..i + 1][..i] == rows[..i];
      var row := rows[i];
      var key := if enabled then PtrGroupKey(row) else None;
      if key.None? {
        order := order + [OfRow(row)];
        continue;
      }
      if key.value in buckets {
        buckets := buckets[key.value := buckets[key.value] + [row]];
      } else {
        buckets := buckets[key.value := [row]];
        order := order + [OfKey(key.value)];
      }
    }
    assert rows[..|rows|] == rows;
  }

  /** What one entry of the order contributes. */
  method EmitEntry(rows: seq<Row>, enabled: bool, buckets: map<string, seq<Row>>, entry: Entry, ghost i: nat)
    returns (out: seq<Group>)
    requires i < |Openers(rows, enabled)| && entry == EntryOf(Openers(rows, enabled)[i], enabled)
    requires forall k :: k in buckets <==> WithKey(rows, enabled, k) != []
    requires forall k :: k in buckets ==> buckets[k] == WithKey(rows, enabled, k)
    ensures out == [GroupOf(rows, enabled, Openers(rows, enabled)[i])]
  {
    hide WithKey, Openers, Key, Sort, RowBefore;
    OpenerOf(rows, enabled, i);
    ghost var opener := Openers(rows, enabled)[i];
    if entry.OfRow? {
      return [Group(entry.row.id, entry.row, [entry.row])];
    }
    var bucket := if entry.key in buckets then buckets[entry.key] else [];
    assert bucket == Bucket(rows, enabled, opener);
    if |bucket| < MIN_GROUP_SIZE {
      assert bucket == [opener];
      out := [];
      for j := 0 to |bucket|
        invariant out == if j == 0 then [] else [GroupOf(rows, enabled, opener)]
      {
        out := out + [Group(bucket[j].id, bucket[j], [bucket[j]])];
      }
      return;
    }
    var members := Sort(bucket, RowBefore);
    SortPermutes(bucket, RowBefore);
    out := [Group(entry.key, members[0], members)];
  }

  method GroupPtrRows(rows: seq<Row>, enabled: bool) returns (groups: seq<Group>)
    ensures groups == Grouping(rows, enabled)
  {
    hide WithKey, Openers, Key, GroupOf;
    var buckets, order := PoolRows(rows, enabled);
    groups := [];
    for i := 0 to |order|
      invariant groups == Grouping(rows, enabled)[..i]
    {
      var out := EmitEntry(rows, enabled, buckets, order[i], i);
      groups := groups + out;
    }
  }

  /* --------------------------------------------------- what grouping keeps */

  function Flattened(groups: seq<Group>): seq<Row> {
    if groups == [] then [] else Flattened(groups[..|groups| - 1]) + groups[|groups| - 1].members
  }

  function Pooled(rows: seq<Row>, enabled: bool, openers: seq<Row>): multiset<Row> {
    if openers == [] then multiset{}
    else Pooled(rows, enabled, openers[..|openers| - 1]) + multiset(Bucket(rows, enabled, openers[|openers| - 1]))
  }

  lemma GroupMembers(rows: seq<Row>, enabled: bool, i: nat)
    requires i < |Openers(rows, enabled)|
    ensures var o := Openers(rows, enabled)[i];
            multiset(GroupOf(rows, enabled, o).members) == multiset(Bucket(rows, enabled, o))
  {
    hide PtrGroupKey, RowBefore;
    OpenerOf(rows, enabled, i);
    var o := Openers(rows, enabled)[i];
    var b := Bucket(rows, enabled, o);
    if |b| >= MIN_GROUP_SIZE { SortPermutes(b, RowBefore); } else { assert b == [o]; }
  }

  lemma {:induction false} FlattenedIsPooled(rows: seq<Row>, enabled: bool, n: nat)
    requires n <= |Openers(rows, enabled)|
    ensures multiset(Flattened(Grouping(rows, enabled)[..n])) == Pooled(rows, enabled, Openers(rows, enabled)[..n])
  {
    hide GroupOf, Bucket, Openers;
    var g, o := Grouping(rows, enabled), Openers(rows, enabled);
    if n > 0 {
      FlattenedIsPooled(rows, enabled, n - 1);
      GroupMembers(rows, enabled, n - 1);
      assert g[..n][..n - 1] == g[..n - 1] && o[..n][..n - 1] == o[..n - 1];
      assert g[n - 1] == GroupOf(rows, enabled, o[n - 1]);
    }
  }

  /** No two openers share a key. */
  lemma {:induction false} OpenersDiffer(rows: seq<Row>, enabled: bool)
    ensures forall i, j :: 0 <= i < j < |Openers(rows, enabled)| && Key(Openers(rows, enabled)[i], enabled).Some? ==>
              Key(Openers(rows, enabled)[i], enabled) != Key(Openers(rows, enabled)[j], enabled)
  {
    hide Key;
    if rows != [] {
      var n := |rows| - 1;
      var init, r := rows[..n], rows[n];
      OpenersDiffer(init, enabled);
      var a := Openers(init, enabled);
      forall i | 0 <= i < |a| && Key(a[i], enabled).Some? && Key(a[i], enabled) == Key(r, enabled)
        ensures WithKey(init, enabled, Key(r, enabled).value) != []
      {
        OpenerOf(init, enabled, i);
      }
    }
  }

  lemma BucketStep(init: seq<Row>, r: Row, enabled: bool, opener: Row)
    ensures Bucket(init + [r], enabled, opener) ==
            Bucket(init, enabled, opener) +
            (if Key(opener, enabled).Some? && Key(opener, enabled) == Key(r, enabled) then [r] else [])
  {
    hide Key;
    assert (init + [r])[..|init|] == init;
  }

  lemma OneMore(b: seq<Row>, r: Row)
    ensures multiset(b + [r]) == multiset(b) + multiset{r} && b + [] == b
  {}

  lemma {:induction false} PooledStep(init: seq<Row>, r: Row, enabled: bool, openers: seq<Row>, at: int)
    requires -1 <= at < |openers|
    requires forall i :: 0 <= i < |openers| ==>
               ((Key(openers[i], enabled).Some? && Key(openers[i], enabled) == Key(r, enabled)) <==> i == at)
    ensures Pooled(init + [r], enabled, openers) ==
            Pooled(init, enabled, openers) + (if at >= 0 then multiset{r} else multiset{})
  {
    hide *;
    PooledLast(init, enabled, openers);
    PooledLast(init + [r], enabled, openers);
    if openers != [] {
      var n := |openers| - 1;
      PooledStep(init, r, enabled, openers[..n], if at == n then -1 else at);
      BucketStep(init, r, enabled, openers[n]);
      OneMore(Bucket(init, enabled, openers[n]), r);
    }
  }

  lemma PooledLast(rows: seq<Row>, enabled: bool, openers: seq<Row>)
    ensures Pooled(rows, enabled, openers) ==
            if openers == [] then multiset{}
            else
              Pooled(rows, enabled, openers[..|openers| - 1]) +
              multiset(Bucket(rows, enabled, openers[|openers| - 1]))
  {
    hide Bucket;
  }

  lemma {:induction false} WithKeyOpened(rows: seq<Row>, enabled: bool, key: string) returns (i: nat)
    requires WithKey(rows, enabled, key) != []
    ensures i < |Openers(rows, enabled)| && Key(Openers(rows, enabled)[i], enabled) == Some(key)
  {
    hide Key;
    var n := |rows| - 1;
    var init, r := rows[..n], rows[n];
    if WithKey(init, enabled, key) != [] {
      i := WithKeyOpened(init, enabled, key);
    } else {
      i := |Openers(init, enabled)|;
    }
  }

  lemma {:induction false} PooledIsRows(rows: seq<Row>, enabled: bool)
    ensures Pooled(rows, enabled, Openers(rows, enabled)) == multiset(rows)
  {
    hide Key, WithKey;
    if rows != [] {
      var n := |rows| - 1;
      var init, r := rows[..n], rows[n];
      assert rows == init + [r];
      PooledIsRows(init, enabled);
      OpenersDiffer(init, enabled);
      var o, k := Openers(init, enabled), Key(r, enabled);
      if k.Some? && WithKey(init, enabled, k.value) != [] {
        var at := WithKeyOpened(init, enabled, k.value);
        PooledStep(init, r, enabled, o, at);
      } else {
        forall i | 0 <= i < |o| && Key(o[i], enabled).Some? ensures Key(o[i], enabled) != k {
          OpenerOf(init, enabled, i);
        }
        PooledStep(init, r, enabled, o, -1);
        NewBucket(init, r, enabled);
        assert (o + [r])[..|o|] == o;
      }
    }
  }

  lemma NewBucket(init: seq<Row>, r: Row, enabled: bool)
    requires var k := Key(r, enabled); k.Some? ==> WithKey(init, enabled, k.value) == []
    ensures Bucket(init + [r], enabled, r) == [r]
  {
    hide Key;
    assert (init + [r])[..|init|] == init;
  }

  /** Grouping loses and invents nothing: the members, flattened, are the rows. */
  lemma GroupingPartitions(rows: seq<Row>, enabled: bool)
    ensures multiset(Flattened(Grouping(rows, enabled))) == multiset(rows)
  {
    hide Openers, Grouping;
    var g, o := Grouping(rows, enabled), Openers(rows, enabled);
    GroupingCount(rows, enabled);
    FlattenedIsPooled(rows, enabled, |o|);
    assert g[..|o|] == g && o[..|o|] == o;
    PooledIsRows(rows, enabled);
  }

  lemma GroupingCount(rows: seq<Row>, enabled: bool)
    ensures |Grouping(rows, enabled)| == |Openers(rows, enabled)|
  {}

  lemma {:induction false} WithKeyMember(rows: seq<Row>, enabled: bool, key: string, x: Row)
    ensures x in WithKey(rows, enabled, key) <==> x in rows && Key(x, enabled) == Some(key)
  {
    hide Key;
    if rows != [] {
      var n := |rows| - 1;
      WithKeyMember(rows[..n], enabled, key, x);
      assert rows == rows[..n] + [rows[n]];
    }
  }

  /** What one group holds: its opener alone, or all the rows with the opener's key. */
  lemma GroupHolds(rows: seq<Row>, enabled: bool, i: nat, x: Row)
    requires i < |Grouping(rows, enabled)|
    ensures var g, o := Grouping(rows, enabled)[i], Openers(rows, enabled)[i];
            x in g.members <==> (x == o || (Key(o, enabled).Some? && x in rows && Key(x, enabled) == Key(o, enabled)))
  {
    var o := Openers(rows, enabled)[i];
    OpenerOf(rows, enabled, i);
    GroupMembers(rows, enabled, i);
    hide Key, GroupOf, Openers;
    var b := Bucket(rows, enabled, o);
    assert x in multiset(GroupOf(rows, enabled, o).members) <==> x in multiset(b);
    if Key(o, enabled).Some? {
      WithKeyMember(rows, enabled, Key(o, enabled).value, x);
      WithKeyMember(rows, enabled, Key(o, enabled).value, o);
    }
  }

  /** Two rows of different groups never share a key, and all rows with one key share a
      group: with grouping on, exactly the rows with equal non-null keys are together. */
  lemma SharedGroupIff(rows: seq<Row>, enabled: bool, i: nat, j: nat, x: Row, y: Row)
    requires i < |Grouping(rows, enabled)| && j < |Grouping(rows, enabled)|
    requires x in Grouping(rows, enabled)[i].members && y in Grouping(rows, enabled)[j].members
    ensures Key(x, enabled).Some? && Key(x, enabled) == Key(y, enabled) ==> i == j
    ensures i == j && x != y ==> enabled && PtrGroupKey(x).Some? && PtrGroupKey(x) == PtrGroupKey(y)
  {
    GroupHolds(rows, enabled, i, x);
    GroupHolds(rows, enabled, j, y);
    OpenersDiffer(rows, enabled);
    GroupingCount(rows, enabled);
    hide PtrGroupKey, Grouping, Openers;
  }

  predicate StrictlyUp(at: seq<nat>) {
    forall i, j :: 0 <= i < j < |at| ==> at[i] < at[j]
  }

  /** The row is the first one of its key, or has none. */
  predicate FirstOfKey(rows: seq<Row>, enabled: bool, n: nat)
    requires n < |rows|
  {
    Key(rows[n], enabled).Some? ==> forall q :: 0 <= q < n ==> Key(rows[q], enabled) != Key(rows[n], enabled)
  }

  /** The openers are the rows at these places, in order. */
  lemma {:induction false} OpenersAt(rows: seq<Row>, enabled: bool) returns (at: seq<nat>)
    ensures |at| == |Openers(rows, enabled)| && StrictlyUp(at)
    ensures forall i :: 0 <= i < |at| ==>
              at[i] < |rows| && rows[at[i]] == Openers(rows, enabled)[i] && FirstOfKey(rows, enabled, at[i])
  {
    hide Key;
    at := [];
    if rows != [] {
      var n := |rows| - 1;
      var init, r := rows[..n], rows[n];
      var before := OpenersAt(init, enabled);
      at := before;
      forall i | 0 <= i < |before| ensures FirstOfKey(rows, enabled, before[i]) {
        assert FirstOfKey(init, enabled, before[i]);
      }
      if Openers(rows, enabled) != Openers(init, enabled) {
        at := before + [n];
        forall q | 0 <= q < n && Key(r, enabled).Some? ensures Key(rows[q], enabled) != Key(r, enabled) {
          WithKeyMember(init, enabled, Key(r, enabled).value, rows[q]);
          assert rows[q] == init[q];
        }
      }
    }
  }

  /** Groups come in the order of the first rows of their keys, which open them, and
      each is led by its first member, whose own id or key names it. */
  lemma FirstOccurrenceOrder(rows: seq<Row>, enabled: bool) returns (at: seq<nat>)
    ensures |at| == |Grouping(rows, enabled)| && StrictlyUp(at)
    ensures forall i :: 0 <= i < |at| ==>
              at[i] < |rows| && FirstOfKey(rows, enabled, at[i]) && rows[at[i]] in Grouping(rows, enabled)[i].members
    ensures forall i :: 0 <= i < |at| ==> Titled(Grouping(rows, enabled)[i], enabled)
  {
    at := OpenersAt(rows, enabled);
    GroupingCount(rows, enabled);
    forall i | 0 <= i < |at|
      ensures rows[at[i]] in Grouping(rows, enabled)[i].members && Titled(Grouping(rows, enabled)[i], enabled)
    {
      hide FirstOfKey, StrictlyUp;
      GroupHolds(rows, enabled, i, Openers(rows, enabled)[i]);
      Led(rows, enabled, i);
    }
  }

  predicate Titled(g: Group, enabled: bool) {
    g.members != [] && g.lead == g.members[0] &&
    (|g.members| == 1 ==> g.id == g.lead.id) &&
    (|g.members| > 1 ==> enabled && PtrGroupKey(g.lead) == Some(g.id))
  }

  lemma Led(rows: seq<Row>, enabled: bool, i: nat)
    requires i < |Grouping(rows, enabled)|
    ensures Titled(Grouping(rows, enabled)[i], enabled)
  {
    OpenerOf(rows, enabled, i);
    var o := Openers(rows, enabled)[i];
    SortPermutes(Bucket(rows, enabled, o), RowBefore);
    var g := Grouping(rows, enabled)[i];
    if g.members != [] { GroupHolds(rows, enabled, i, g.members[0]); }
    hide PtrGroupKey, RowBefore, Openers, WithKey, Sort;
  }

  /* ------------------------------------------- the order is a weak order */

  /** What the comparison ranks an address by: IPv4 by value, before IPv6 by text. */
  datatype Rank = V4(n: nat) | V6(text: string)

  function RankOf(a: string): Rank {
    var v := Ipv4Value(a);
    if v.Some? then V4(v.value) else V6(ExpandAddress(a))
  }

  predicate RankBefore(a: Rank, b: Rank) {
    match (a, b)
    case (V4(m), V4(n)) => m < n
    case (V4(_), V6(_)) => true
    case (V6(_), V4(_)) => false
    case (V6(s), V6(t)) => Precedes(s, t)
  }

  lemma CompareIsRank(a: string, b: string)
    ensures CompareAddresses(a, b) < 0 <==> RankBefore(RankOf(a), RankOf(b))
    ensures CompareAddresses(a, b) > 0 <==> RankBefore(RankOf(b), RankOf(a))
    ensures CompareAddresses(a, b) == 0 <==> RankOf(a) == RankOf(b)
  {
    hide Ipv4Value, ExpandAddress, Precedes;
    PrecedesAsymmetric(ExpandAddress(a), ExpandAddress(b));
    PrecedesAsymmetric(ExpandAddress(b), ExpandAddress(a));
  }

  lemma RankNegTransitive(a: Rank, b: Rank, c: Rank)
    ensures !RankBefore(a, b) && !RankBefore(b, c) ==> !RankBefore(a, c)
    ensures RankBefore(a, b) ==> !RankBefore(b, a)
  {
    if a.V6? && b.V6? { PrecedesAsymmetric(a.text, b.text); }
    if a.V6? && b.V6? && c.V6? { PrecedesNegTransitive(a.text, b.text, c.text); }
  }

  lemma AddressOrder()
    ensures StrictWeakOrder(RowBefore)
  {
    hide CompareAddresses, RankOf, RankBefore;
    forall x: Row, y: Row ensures RowBefore(x, y) ==> !RowBefore(y, x) {
      CompareIsRank(x.ip, y.ip);
      CompareIsRank(y.ip, x.ip);
      RankNegTransitive(RankOf(x.ip), RankOf(y.ip), RankOf(x.ip));
    }
    forall x: Row, y: Row, z: Row ensures !RowBefore(x, y) && !RowBefore(y, z) ==> !RowBefore(x, z) {
      CompareIsRank(x.ip, y.ip);
      CompareIsRank(y.ip, z.ip);
      CompareIsRank(x.ip, z.ip);
      RankNegTransitive(RankOf(x.ip), RankOf(y.ip), RankOf(z.ip));
    }
  }

  /** Every group's members are in address order. */
  lemma MembersSorted(rows: seq<Row>, enabled: bool, i: nat)
    requires i < |Grouping(rows, enabled)|
    ensures Sorted(Grouping(rows, enabled)[i].members, RowBefore)
  {
    hide RowBefore, PtrGroupKey;
    AddressOrder();
    SortSorted(Bucket(rows, enabled, Openers(rows, enabled)[i]), RowBefore);
  }
}
