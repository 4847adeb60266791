/** What a reverse-DNS fix turns each PTR RRset into, grouped by zone for the review
    dialog, and that the planner writes exactly that. */
module PtrReview {
  import opened Options
  import opened Text
  import opened InsertionMap
  import opened Sorting
  import opened Selection
  import A = AutoPtr
  import R = ReverseName

  const RECTIFY_DEFAULT_TTL := 3600
  const NO_REVERSE_ZONE := "(no reverse zone)"

  datatype Fix = Set | Remove

  datatype ReviewInput = ReviewInput(
    owner: string,
    reverseZone: Option<string>,
    currentTargets: seq<string>,
    currentTtl: Option<int>,
    fix: Fix,
    target: string,
    ttl: Option<int>)

  datatype ReviewRRset = ReviewRRset(name: string, ttl: int, records: seq<string>)

  datatype ReviewZone = ReviewZone(reverseZone: string, addresses: nat, before: seq<ReviewRRset>,
                                   after: seq<ReviewRRset>)

  function Absolute(name: string): string {
    var l := Lower(Trim(name));
    if EndsWith(l, ".") then l else l + "."
  }

  function AbsoluteAll(targets: seq<string>): (r: seq<string>)
    ensures |r| == |targets| && forall i :: 0 <= i < |r| ==> r[i] == Absolute(targets[i])
  {
    seq(|targets|, i requires 0 <= i < |targets| => Absolute(targets[i]))
  }

  function MakeRRset(owner: string, ttl: int, targets: seq<string>): ReviewRRset {
    ReviewRRset(Absolute(owner), ttl, AbsoluteAll(targets))
  }

  function Or(ttl: Option<int>): int {
    if ttl.Some? then ttl.value else RECTIFY_DEFAULT_TTL
  }

  /** The targets naming something else. */
  function Remaining(targets: seq<string>, target: string): (r: seq<string>)
    ensures forall x :: x in r <==> x in targets && Absolute(x) != target
  {
    hide Absolute;
    if targets == [] then []
    else
      var init, last := Remaining(targets[..|targets| - 1], target), targets[|targets| - 1];
      assert targets == targets[..|targets| - 1] + [last];
      if Absolute(last) != target then init + [last] else init
  }

  function BeforeOf(item: ReviewInput): Option<ReviewRRset> {
    if item.currentTargets == [] then None
    else Some(MakeRRset(item.owner, Or(item.currentTtl), item.currentTargets))
  }

  function AfterOf(item: ReviewInput): Option<ReviewRRset> {
    if item.fix.Set? then Some(MakeRRset(item.owner, Or(item.ttl), [item.target]))
    else
      var remaining := Remaining(item.currentTargets, Absolute(item.target));
      if remaining == [] then None else Some(MakeRRset(item.owner, Or(item.currentTtl), remaining))
  }

  function Add(s: seq<ReviewRRset>, r: Option<ReviewRRset>): seq<ReviewRRset> {
    if r.Some? then s + [r.value] else s
  }

  function ZoneName(item: ReviewInput): string {
    if item.reverseZone.Some? then item.reverseZone.value else NO_REVERSE_ZONE
  }

  function Grown(z: ReviewZone, item: ReviewInput): ReviewZone {
    ReviewZone(z.reverseZone, z.addresses + 1, Add(z.before, BeforeOf(item)), Add(z.after, AfterOf(item)))
  }

  function Zones(items: seq<ReviewInput>): Entries<string, ReviewZone> {
    if items == [] then []
    else
      var zones, item := Zones(items[..|items| - 1]), items[|items| - 1];
      var name := ZoneName(item);
      Put(zones, name, Grown(if Has(zones, name) then Get(zones, name) else ReviewZone(name, 0, [], []), item))
  }

  function Values(zones: Entries<string, ReviewZone>): (r: seq<ReviewZone>)
    ensures |r| == |zones| && forall i :: 0 <= i < |r| ==> r[i] == zones[i].1
  {
    seq(|zones|, i requires 0 <= i < |zones| => zones[i].1)
  }

  /** The names' order is the locale's; it is a parameter here. */
  method BuildPtrReview(items: seq<ReviewInput>, before: (string, string) -> bool) returns (r: seq<ReviewZone>)
    ensures r == Sort(Values(Zones(items)), (a: ReviewZone, b: ReviewZone) => before(a.reverseZone, b.reverseZone))
  {
    hide Absolute, MakeRRset, Remaining, Has, Get, Put, Sort;
    var zones: Entries<string, ReviewZone> := [];
    for i := 0 to |items|
      invariant zones == Zones(items[..i])
    {
      assert items[..i + 1][..i] == items[..i];
      var item := items[i];
      var zoneName := ZoneName(item);
      ghost var grown := Grown(if Has(zones, zoneName) then Get(zones, zoneName) else ReviewZone(zoneName, 0, [], []),
                               item);
      var zone := if Has(zones, zoneName) then Get(zones, zoneName) else ReviewZone(zoneName, 0, [], []);
      zone := zone.(addresses := zone.addresses + 1);
      if item.currentTargets != [] {
        zone := zone.(before := zone.before + [MakeRRset(item.owner, Or(item.currentTtl), item.currentTargets)]);
      }
      if item.fix.Set? {
        zone := zone.(after := zone.after + [MakeRRset(item.owner, Or(item.ttl), [item.target])]);
      } else {
        var remaining := Remaining(item.currentTargets, Absolute(item.target));
        if remaining != [] {
          zone := zone.(after := zone.after + [MakeRRset(item.owner, Or(item.currentTtl), remaining)]);
        }
      }
      assert zone == grown;
      zones := Put(zones, zoneName, zone);
    }
    assert items[..|items|] == items;
    r := Sort(Values(zones), (a: ReviewZone, b: ReviewZone) => before(a.reverseZone, b.reverseZone));
  }

  /** One zone's items and nothing else, in their order. */
  function ZoneView(items: seq<ReviewInput>, name: string): ReviewZone {
    if items == [] then ReviewZone(name, 0, [], [])
    else
      var z := ZoneView(items[..|items| - 1], name);
      if ZoneName(items[|items| - 1]) == name then Grown(z, items[|items| - 1]) else z
  }

  lemma {:induction false} ZoneViewCount(items: seq<ReviewInput>, name: string)
    ensures ZoneView(items, name).addresses > 0 <==> exists x :: x in items && ZoneName(x) == name
  {
    hide BeforeOf, AfterOf, ZoneName;
    if items != [] {
      var n := |items| - 1;
      ZoneViewCount(items[..n], name);
      assert items == items[..n] + [items[n]];
      assert forall x :: x in items <==> x in items[..n] || x == items[n];
    }
  }

  /** The review partitions the items by zone: every zone with items is there once, with
      the RRsets before and after of its own items. */
  lemma {:induction false} ReviewPartitions(items: seq<ReviewInput>, name: string)
    ensures Unique(Zones(items))
    ensures Has(Zones(items), name) <==> exists x :: x in items && ZoneName(x) == name
    ensures ZoneView(items, name).addresses > 0 <==> Has(Zones(items), name)
    ensures Has(Zones(items), name) ==> Get(Zones(items), name) == ZoneView(items, name)
    ensures !Has(Zones(items), name) ==> ZoneView(items, name) == ReviewZone(name, 0, [], [])
  {
    hide BeforeOf, AfterOf;
    ZoneViewCount(items, name);
    if items != [] {
      var n := |items| - 1;
      var item := items[n];
      ReviewPartitions(items[..n], name);
      ReviewPartitions(items[..n], ZoneName(item));
      var zones := Zones(items[..n]);
      PutGet(zones, ZoneName(item), Grown(if Has(zones, ZoneName(item)) then Get(zones, ZoneName(item))
                                          else ReviewZone(ZoneName(item), 0, [], []), item), name);
    }
  }

  /* ----------------------------------------------- what an item is shown as */

  /** A name as shown: without surrounding space, in lower case, with its final dot. */
  lemma AbsoluteIs(name: string) returns (left: string, middle: string, right: string)
    ensures name == left + middle + right && AllSpace(left) && AllSpace(right) && Trimmed(middle)
    ensures Absolute(name) == if EndsWith(Lower(middle), ".") then Lower(middle) else Lower(middle) + "."
  {
    middle := Trim(name);
    left, right := TrimIs(name);
  }

  /** That TTL, or an hour when there is none. */
  predicate TtlOr(ttl: Option<int>, shown: int) {
    (ttl.Some? ==> shown == ttl.value) && (ttl.None? ==> shown == 3600)
  }

  /** An RRset of these contents in order, each as an absolute name; none when there are none. */
  predicate Shows(r: Option<ReviewRRset>, owner: string, ttl: Option<int>, contents: seq<string>) {
    (r.None? <==> contents == []) &&
    (r.Some? ==> r.value.name == Absolute(owner) && TtlOr(ttl, r.value.ttl) && |r.value.records| == |contents| &&
                 forall i :: 0 <= i < |contents| ==> r.value.records[i] == Absolute(contents[i]))
  }

  ghost function NamesOther(target: string): string -> bool {
    (x: string) => Absolute(x) != Absolute(target)
  }

  ghost function AsRead(): string -> string {
    (x: string) => x
  }

  lemma {:induction false} RemainingIs(targets: seq<string>, target: string)
    ensures IsSelection(targets, NamesOther(target), AsRead(), Remaining(targets, Absolute(target)))
  {
    hide IsSelection, Absolute;
    if targets == [] {
      SelectNone(NamesOther(target), AsRead());
    } else {
      var init, last := targets[..|targets| - 1], targets[|targets| - 1];
      RemainingIs(init, target);
      SelectNext(init, NamesOther(target), AsRead(), Remaining(init, Absolute(target)), last);
      assert init + [last] == targets;
    }
  }

  /** The RRset before an item is what was read; after a `set` it is the target alone, and
      after a `remove` the targets of any other name, in order. */
  lemma ItemShows(item: ReviewInput) returns (rest: seq<string>)
    ensures Shows(BeforeOf(item), item.owner, item.currentTtl, item.currentTargets)
    ensures item.fix.Set? ==> Shows(AfterOf(item), item.owner, item.ttl, [item.target])
    ensures IsSelection(item.currentTargets, NamesOther(item.target), AsRead(), rest)
    ensures item.fix.Remove? ==> Shows(AfterOf(item), item.owner, item.currentTtl, rest)
  {
    hide IsSelection, Absolute, Remaining;
    rest := Remaining(item.currentTargets, Absolute(item.target));
    RemainingIs(item.currentTargets, item.target);
  }

  /** The RRset shown before a fix is the one stored at the place it was read from. */
  lemma BeforeIsStored(item: ReviewInput, stored: Option<A.RRset>)
    requires item.currentTargets == if stored.Some? then A.Targets(stored.value.records) else []
    requires stored.Some? ==> item.currentTtl == Some(stored.value.ttl)
    ensures BeforeOf(item).None? <==> stored.None? || stored.value.records == []
    ensures BeforeOf(item).Some? ==>
              var r, s := BeforeOf(item).value, stored.value;
              r.name == Absolute(item.owner) && r.ttl == s.ttl && |r.records| == |s.records| &&
              forall i :: 0 <= i < |s.records| ==> r.records[i] == Absolute(s.records[i].content)
  {
    hide IsSelection, Absolute, AfterOf, MakeRRset;
    var rest := ItemShows(item);
  }

  /** The zone an item is listed under. */
  ghost function Under(name: string): ReviewInput -> bool {
    (x: ReviewInput) => if x.reverseZone.Some? then x.reverseZone.value == name else name == "(no reverse zone)"
  }

  ghost function UnderWith(name: string, rr: ReviewInput -> Option<ReviewRRset>): ReviewInput -> bool {
    (x: ReviewInput) => Under(name)(x) && rr(x).Some?
  }

  ghost function RRsetOf(rr: ReviewInput -> Option<ReviewRRset>): ReviewInput -> ReviewRRset {
    (x: ReviewInput) => if rr(x).Some? then rr(x).value else ReviewRRset("", 0, [])
  }

  ghost function AsListed(): ReviewInput -> ReviewInput {
    (x: ReviewInput) => x
  }

  /** A zone's view: how many items it has, and their RRsets before and after in order. */
  lemma {:induction false} ZoneViewIs(items: seq<ReviewInput>, name: string) returns (own: seq<ReviewInput>)
    ensures var z := ZoneView(items, name);
            IsSelection(items, Under(name), AsListed(), own) && z.reverseZone == name && z.addresses == |own| &&
            IsSelection(items, UnderWith(name, BeforeOf), RRsetOf(BeforeOf), z.before) &&
            IsSelection(items, UnderWith(name, AfterOf), RRsetOf(AfterOf), z.after)
  {
    hide IsSelection, BeforeOf, AfterOf;
    if items == [] {
      own := [];
      SelectNone(Under(name), AsListed());
      SelectNone(UnderWith(name, BeforeOf), RRsetOf(BeforeOf));
      SelectNone(UnderWith(name, AfterOf), RRsetOf(AfterOf));
    } else {
      var init, last := items[..|items| - 1], items[|items| - 1];
      var before := ZoneViewIs(init, name);
      var z := ZoneView(init, name);
      SelectNext(init, Under(name), AsListed(), before, last);
      SelectNext(init, UnderWith(name, BeforeOf), RRsetOf(BeforeOf), z.before, last);
      SelectNext(init, UnderWith(name, AfterOf), RRsetOf(AfterOf), z.after, last);
      own := if Under(name)(last) then before + [last] else before;
      assert init + [last] == items;
    }
  }

  /** The zones come in the order of their names. */
  lemma ReviewSorted(items: seq<ReviewInput>, before: (string, string) -> bool)
    requires StrictWeakOrder(before)
    ensures var zones := Values(Zones(items));
            var r := Sort(zones, (a: ReviewZone, b: ReviewZone) => before(a.reverseZone, b.reverseZone));
            multiset(r) == multiset(zones) &&
            forall i, j :: 0 <= i < j < |r| ==> !before(r[j].reverseZone, r[i].reverseZone)
  {
    hide Zones, Sort;
    var order := (a: ReviewZone, b: ReviewZone) => before(a.reverseZone, b.reverseZone);
    var zones := Values(Zones(items));
    SortPermutes(zones, order);
    assert StrictWeakOrder(order) by {
      forall a, b ensures order(a, b) ==> !order(b, a) {
        assert before(a.reverseZone, b.reverseZone) ==> !before(b.reverseZone, a.reverseZone);
      }
      forall a, b, c ensures !order(a, b) && !order(b, c) ==> !order(a, c) {
        assert !before(a.reverseZone, b.reverseZone) && !before(b.reverseZone, c.reverseZone) ==>
               !before(a.reverseZone, c.reverseZone);
      }
    }
    SortSorted(zones, order);
  }

  /* ------------------------------------- the planner writes what was shown */

  lemma AbsoluteTwice(name: string)
    ensures Absolute(Absolute(name)) == Absolute(name) && Lower(Absolute(name)) == Absolute(name)
  {
    hide Trim, LowerChar, IsSpace;
    var t := Trim(name);
    var l := Lower(t);
    LowerIdempotent(t);
    LowerSpaces(t);
    DotChar();
    assert Lower(l + ".") == l + ".";
    assert Trimmed(l) && Trimmed(l + ".");
    assert (l + ".")[|l|..] == ".";
  }

  lemma AbsoluteTrimmed(name: string)
    ensures Trimmed(Absolute(name)) && EndsWith(Absolute(name), ".")
  {
    hide Trim, LowerChar, IsSpace;
    var l := Lower(Trim(name));
    LowerSpaces(Trim(name));
    DotChar();
    assert Trimmed(l) && Trimmed(l + ".");
    assert (l + ".")[|l|..] == ".";
  }

  /** A trimmed name that ends in a dot is only put in lower case. */
  lemma AbsoluteFixed(name: string)
    requires Trim(name) == name && EndsWith(Lower(name), ".")
    ensures Absolute(name) == Lower(name)
  {}

  lemma DotChar()
    ensures LowerChar('.') == '.' && !IsSpace('.')
  {}

  lemma LowerSpaces(s: string)
    requires Trimmed(s)
    ensures Trimmed(Lower(s))
  {}

  /** The job the rectify route hands the planner for one item. */
  function FixJob(ip: string, item: ReviewInput, zones: seq<string>): A.Job {
    if item.fix.Set? then
      A.Job(A.Change(A.Upsert, Absolute(item.target), Some(Or(item.ttl)), [A.AddressRecord(ip, false)]), None, zones,
            true)
    else
      A.Job(A.Change(A.Removal, Absolute(item.target), None, []), Some(A.RRset(0, [A.AddressRecord(ip, false)])),
            zones, false)
  }

  lemma OnlyRecord(ip: string)
    ensures A.UniqueAddresses([A.AddressRecord(ip, false)]) == [A.AddressRecord(ip, false)]
    ensures A.Gone([], [A.AddressRecord(ip, false)]) == [A.AddressRecord(ip, false)]
  {
    var r := [A.AddressRecord(ip, false)];
    assert r[..0] == [];
    assert !A.Represented([], r[0]);
    assert A.UniqueAddresses([]) == [] && A.Gone([], []) == [];
  }

  /** After a `set` the owner holds one record naming the target at the shown TTL. */
  lemma SetIsAsShown(ip: string, item: ReviewInput, zones: seq<string>, w: A.World)
    requires item.fix.Set? && R.FindReverseZone(ip, zones).Some?
    ensures var r := A.Get(A.After(FixJob(ip, item, zones), w), R.FindReverseZone(ip, zones).value.owner);
            r.Some? && AfterOf(item).Some? && r.value.ttl == AfterOf(item).value.ttl &&
            |r.value.records| == |AfterOf(item).value.records| == 1 && !r.value.records[0].disabled &&
            Lower(r.value.records[0].content) == AfterOf(item).value.records[0]
  {
    hide R.FindReverseZone, A.After, Absolute, A.UniqueAddresses;
    var job, rec := FixJob(ip, item, zones), A.AddressRecord(ip, false);
    OnlyRecord(ip);
    AbsoluteTwice(item.target);
    assert rec in A.Desired(job);
    A.DesiredPoints(job, w, rec);
  }

  /** Record contents that are absolute names, as the server stores them. */
  ghost predicate Stored(targets: seq<string>) {
    forall i :: 0 <= i < |targets| ==> Absolute(targets[i]) == Lower(targets[i])
  }

  lemma {:induction false} RemainingIsOthers(records: seq<A.AddressRecord>, target: string)
    requires Stored(A.Targets(records)) && Lower(target) == target
    ensures A.Targets(A.OthersIn(records, target)) == Remaining(A.Targets(records), target)
  {
    hide *;
    OthersStep(records, target);
    RemainingStep(records, target);
    if records != [] { RemainingIsOthers(records[..|records| - 1], target); }
  }

  lemma OthersStep(records: seq<A.AddressRecord>, target: string)
    ensures var all := A.Targets(A.OthersIn(records, target));
            if records == [] then all == []
            else
              var n := |records| - 1;
              var init := A.Targets(A.OthersIn(records[..n], target));
              all == if A.SameName(records[n].content, target) then init else init + [records[n].content]
  {
    hide A.SameName;
  }

  lemma RemainingStep(records: seq<A.AddressRecord>, target: string)
    requires Stored(A.Targets(records)) && Lower(target) == target
    ensures var all := Remaining(A.Targets(records), target);
            if records == [] then all == []
            else
              var n := |records| - 1;
              var init := Remaining(A.Targets(records[..n]), target);
              Stored(A.Targets(records[..n])) &&
              all == if A.SameName(records[n].content, target) then init else init + [records[n].content]
  {
    hide Absolute, Lower;
    if records != [] {
      var n := |records| - 1;
      var t := A.Targets(records);
      assert t[..n] == A.Targets(records[..n]) && t[n] == records[n].content;
      assert forall i :: 0 <= i < n ==> t[..n][i] == t[i];
      assert Absolute(t[n]) == Lower(t[n]);
    }
  }

  /** After a `remove` the owner holds exactly the shown rest, at its own TTL, or nothing. */
  lemma RemoveIsAsShown(ip: string, item: ReviewInput, zones: seq<string>, w: A.World)
    requires item.fix.Remove? && R.FindReverseZone(ip, zones).Some?
    requires var current := A.Get(w, R.FindReverseZone(ip, zones).value.owner);
             current.Some? && item.currentTargets == A.Targets(current.value.records) &&
             item.currentTtl == Some(current.value.ttl) && Stored(item.currentTargets)
    ensures var r := A.Get(A.After(FixJob(ip, item, zones), w), R.FindReverseZone(ip, zones).value.owner);
            if AfterOf(item).None? then r.None? || r.value.records == []
            else r.Some? && r.value.ttl == AfterOf(item).value.ttl &&
                 AbsoluteAll(A.Targets(r.value.records)) == AfterOf(item).value.records
  {
    hide R.FindReverseZone, Absolute, A.UniqueAddresses, Remaining, A.OthersIn, A.After, Lower, A.SameName, A.AllOurs;
    var job, rec := FixJob(ip, item, zones), A.AddressRecord(ip, false);
    var m := R.FindReverseZone(ip, zones).value;
    var current := A.Get(w, m.owner);
    OnlyRecord(ip);
    AbsoluteTwice(item.target);
    assert rec in A.Removed(job);
    A.AfterAt(job, w, false, rec);
    RemainingIsOthers(current.value.records, Absolute(item.target));
  }

  lemma AfterName(item: ReviewInput)
    ensures AfterOf(item).Some? ==> AfterOf(item).value.name == Absolute(item.owner)
  {}

  /** A `remove` of what is not there leaves nothing there. */
  lemma RemoveFromNothing(ip: string, item: ReviewInput, zones: seq<string>, w: A.World)
    requires item.fix.Remove? && R.FindReverseZone(ip, zones).Some? && item.currentTargets == []
    requires A.Get(w, R.FindReverseZone(ip, zones).value.owner) == None
    ensures A.Get(A.After(FixJob(ip, item, zones), w), R.FindReverseZone(ip, zones).value.owner) == None
    ensures AfterOf(item) == None
  {
    hide R.FindReverseZone, Absolute, A.UniqueAddresses, A.After, Lower;
    var job, rec := FixJob(ip, item, zones), A.AddressRecord(ip, false);
    OnlyRecord(ip);
    assert rec in A.Removed(job);
    A.AfterAt(job, w, false, rec);
  }
}
