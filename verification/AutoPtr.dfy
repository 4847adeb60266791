/** The decision table of automatic PTR maintenance: what one A/AAAA change asks of
    the PTR RRsets at its addresses' owner names, and what applying that does. */
module AutoPtr {
  import opened Options
  import opened Text
  import opened ReverseName
  import opened ReverseZoneLaws

  datatype AddressRecord = AddressRecord(content: string, disabled: bool)

  datatype RRset = RRset(ttl: int, records: seq<AddressRecord>)

  datatype Kind = Upsert | Removal

  datatype Change = Change(kind: Kind, name: string, ttl: Option<int>, records: seq<AddressRecord>)

  /** One planning job but for the PTR RRsets that exist. */
  datatype Job = Job(change: Change, before: Option<RRset>, zones: seq<string>, takeover: bool)

  datatype Action = Create | Update | Delete | Unchanged | Skip | Conflict

  datatype Reason = NoReason | NoReverseZone | PointsElsewhere | AlreadyAbsent

  datatype Item = Item(
    ip: string,
    owner: string,
    reverseZone: Option<string>,
    action: Action,
    reason: Reason,
    currentTargets: seq<string>,
    rrset: Option<RRset>)

  /** PTR RRsets by owner name. */
  type World = map<string, RRset>

  function Get(w: World, owner: string): Option<RRset> {
    if owner in w then Some(w[owner]) else None
  }

  predicate SameName(a: string, b: string) {
    Lower(a) == Lower(b)
  }

  predicate Represented(rs: seq<AddressRecord>, r: AddressRecord) {
    exists i :: 0 <= i < |rs| && SameAddress(rs[i].content, r.content)
  }

  /** The first record of each address. */
  function UniqueAddresses(records: seq<AddressRecord>): seq<AddressRecord> {
    if records == [] then []
    else
      var out, r := UniqueAddresses(records[..|records| - 1]), records[|records| - 1];
      if Represented(out, r) then out else out + [r]
  }

  function Desired(job: Job): seq<AddressRecord> {
    if job.change.kind.Upsert? then UniqueAddresses(job.change.records) else []
  }

  function Records(before: Option<RRset>): seq<AddressRecord> {
    if before.Some? then before.value.records else []
  }

  /** The previous addresses that are not desired any more. */
  function Gone(desired: seq<AddressRecord>, previous: seq<AddressRecord>): seq<AddressRecord> {
    if previous == [] then []
    else
      var init, r := Gone(desired, previous[..|previous| - 1]), previous[|previous| - 1];
      if Represented(desired, r) then init else init + [r]
  }

  function Removed(job: Job): seq<AddressRecord> {
    Gone(Desired(job), UniqueAddresses(Records(job.before)))
  }

  function WantTtl(job: Job): int {
    if job.change.ttl.Some? then job.change.ttl.value
    else if job.before.Some? then job.before.value.ttl else 0
  }

  function Target(job: Job): string {
    Lower(job.change.name)
  }

  function Want(job: Job, rec: AddressRecord): RRset {
    RRset(WantTtl(job), [AddressRecord(Target(job), rec.disabled)])
  }

  function Targets(records: seq<AddressRecord>): seq<string> {
    seq(|records|, i requires 0 <= i < |records| => records[i].content)
  }

  predicate AllOurs(records: seq<AddressRecord>, target: string) {
    forall i :: 0 <= i < |records| ==> SameName(records[i].content, target)
  }

  lemma AllOursStep(records: seq<AddressRecord>, target: string)
    ensures AllOurs(records, target) <==>
            records == [] ||
              (AllOurs(records[..|records| - 1], target) && SameName(records[|records| - 1].content, target))
  {
    hide SameName;
    if records != [] {
      var n := |records| - 1;
      assert forall i :: 0 <= i < n ==> records[..n][i] == records[i];
    }
  }

  /** The records naming anything other than the target. */
  function OthersIn(records: seq<AddressRecord>, target: string): (r: seq<AddressRecord>)
    ensures |r| <= |records|
    ensures forall i :: 0 <= i < |r| ==> !SameName(r[i].content, target)
    ensures r == [] <==> AllOurs(records, target)
    ensures |r| == |records| ==> r == records
  {
    hide SameName, AllOurs;
    AllOursStep(records, target);
    if records == [] then []
    else
      assert records == records[..|records| - 1] + [records[|records| - 1]];
      var init, last := OthersIn(records[..|records| - 1], target), records[|records| - 1];
      if SameName(last.content, target) then init else init + [last]
  }

  /** An upsert's address whose PTR lives at this owner: what to do with what is there. */
  function DesiredAt(rec: AddressRecord, m: ReverseZoneMatch, current: Option<RRset>, want: RRset,
                     target: string, takeover: bool): Item {
    var item := Item(rec.content, m.owner, Some(m.zone), Create, NoReason, [], Some(want));
    if current.None? || current.value.records == [] then item
    else
      var c := current.value;
      var seen := item.(currentTargets := Targets(c.records));
      if AllOurs(c.records, target) then
        if c.ttl == want.ttl && |c.records| == 1 && c.records[0].disabled == rec.disabled
        then seen.(action := Unchanged, rrset := None) else seen.(action := Update)
      else if takeover then seen.(action := Update)
      else seen.(action := Conflict, rrset := None)
  }

  /** An address the change takes away. */
  function RemovedAt(rec: AddressRecord, m: ReverseZoneMatch, current: Option<RRset>, target: string): Item {
    var item := Item(rec.content, m.owner, Some(m.zone), Unchanged, AlreadyAbsent, [], None);
    if current.None? || current.value.records == [] then item
    else
      var c := current.value;
      var seen := item.(currentTargets := Targets(c.records));
      var remaining := OthersIn(c.records, target);
      if |remaining| == |c.records| then seen.(reason := PointsElsewhere)
      else if remaining == [] then seen.(action := Delete, reason := NoReason)
      else seen.(action := Update, reason := NoReason, rrset := Some(RRset(c.ttl, remaining)))
  }

  function Skipped(rec: AddressRecord, owner: string): Item {
    Item(rec.content, owner, None, Skip, NoReverseZone, [], None)
  }

  /** The item of one hosted address. */
  function HostedItem(job: Job, w: World, desired: bool, rec: AddressRecord, m: ReverseZoneMatch): Item {
    var current := Get(w, m.owner);
    if desired then DesiredAt(rec, m, current, Want(job, rec), Target(job), job.takeover)
    else RemovedAt(rec, m, current, Target(job))
  }

  /** The item of one address; text that is no address gets none. */
  function ItemFor(job: Job, w: World, desired: bool, rec: AddressRecord): Option<Item> {
    var owner, m := ReverseOwnerName(rec.content), FindReverseZone(rec.content, job.zones);
    if owner.None? then None
    else if m.None? then Some(Skipped(rec, owner.value))
    else Some(HostedItem(job, w, desired, rec, m.value))
  }

  function ItemsOf(job: Job, w: World, desired: bool, recs: seq<AddressRecord>): seq<Item> {
    if recs == [] then []
    else
      var init := ItemsOf(job, w, desired, recs[..|recs| - 1]);
      var it := ItemFor(job, w, desired, recs[|recs| - 1]);
      if it.None? then init else init + [it.value]
  }

  function Plan(job: Job, w: World): seq<Item> {
    ItemsOf(job, w, true, Desired(job)) + ItemsOf(job, w, false, Removed(job))
  }

  /* ------------------------------------------------ the code, in its form */

  method UniqueAddressesLoop(records: seq<AddressRecord>) returns (out: seq<AddressRecord>)
    ensures out == UniqueAddresses(records)
  {
    hide SameAddress;
    out := [];
    for i := 0 to |records|
      invariant out == UniqueAddresses(records[..i])
    {
      assert records[..i + 1][..i] == records[..i];
      var r := records[i];
      if !Represented(out, r) { out := out + [r]; }
    }
    assert records[..|records|] == records;
  }

  lemma ItemsStep(job: Job, w: World, desired: bool, recs: seq<AddressRecord>, rec: AddressRecord)
    ensures var it := ItemFor(job, w, desired, rec);
            var items := ItemsOf(job, w, desired, recs);
            ItemsOf(job, w, desired, recs + [rec]) == if it.Some? then items + [it.value] else items
  {
    hide ItemFor;
    assert (recs + [rec])[..|recs|] == recs;
  }

  lemma GoneStep(desired: seq<AddressRecord>, recs: seq<AddressRecord>, rec: AddressRecord)
    ensures var gone := Gone(desired, recs);
            Gone(desired, recs + [rec]) == if Represented(desired, rec) then gone else gone + [rec]
  {
    hide Represented;
    assert (recs + [rec])[..|recs|] == recs;
  }

  method PlanPtrChanges(job: Job, existing: World) returns (items: seq<Item>)
    ensures items == Plan(job, existing)
  {
    hide SameAddress, FindReverseZone, ReverseOwnerName, UniqueAddresses, Lower, OthersIn, Targets, Represented,
         DesiredAt, RemovedAt, Want, Skipped, Target, Get, ItemsOf, Gone;
    var target := Target(job);
    var desired := [];
    if job.change.kind.Upsert? { desired := UniqueAddressesLoop(job.change.records); }
    var previous := UniqueAddressesLoop(Records(job.before));
    items := [];
    NoItems(job, existing, desired);
    for i := 0 to |desired|
      invariant items == ItemsOf(job, existing, true, desired[..i])
    {
      var rec := desired[i];
      assert desired[..i + 1] == desired[..i] + [rec];
      ItemsStep(job, existing, true, desired[..i], rec);
      var owner := ReverseOwnerName(rec.content);
      if owner.None? { continue; }
      var m := FindReverseZone(rec.content, job.zones);
      if m.None? {
        items := items + [Skipped(rec, owner.value)];
        continue;
      }
      var want := Want(job, rec);
      items := items + [DesiredAt(rec, m.value, Get(existing, m.value.owner), want, target, job.takeover)];
    }
    assert desired[..|desired|] == desired;
    ghost var first := items;
    for i := 0 to |previous|
      invariant items == first + ItemsOf(job, existing, false, Gone(desired, previous[..i]))
    {
      var rec := previous[i];
      assert previous[..i + 1] == previous[..i] + [rec];
      GoneStep(desired, previous[..i], rec);
      if Represented(desired, rec) { continue; }
      ItemsStep(job, existing, false, Gone(desired, previous[..i]), rec);
      var owner := ReverseOwnerName(rec.content);
      if owner.None? { continue; }
      var m := FindReverseZone(rec.content, job.zones);
      if m.None? {
        items := items + [Skipped(rec, owner.value)];
        continue;
      }
      items := items + [RemovedAt(rec, m.value, Get(existing, m.value.owner), target)];
    }
    assert previous[..|previous|] == previous;
  }

  lemma NoItems(job: Job, w: World, desired: seq<AddressRecord>)
    ensures ItemsOf(job, w, true, []) == [] && ItemsOf(job, w, false, []) == [] && Gone(desired, []) == []
  {}

  /** Owner to zone, for every address before or after that is hosted. */
  function Candidates(recs: seq<AddressRecord>, zones: seq<string>): map<string, string> {
    if recs == [] then map[]
    else
      var init, m := Candidates(recs[..|recs| - 1], zones), FindReverseZone(recs[|recs| - 1].content, zones);
      if m.Some? then init[m.value.owner := m.value.zone] else init
  }

  function AllRecords(job: Job): seq<AddressRecord> {
    (if job.change.kind.Upsert? then job.change.records else []) + Records(job.before)
  }

  method CandidatePtrOwners(job: Job) returns (out: map<string, string>)
    ensures out == Candidates(AllRecords(job), job.zones)
  {
    hide FindReverseZone, AllRecords;
    var zones, all := job.zones, AllRecords(job);
    out := map[];
    for i := 0 to |all|
      invariant out == Candidates(all[..i], zones)
    {
      assert all[..i + 1][..i] == all[..i];
      var m := FindReverseZone(all[i].content, zones);
      if m.Some? { out := out[m.value.owner := m.value.zone]; }
    }
    assert all[..|all|] == all;
  }

  /* ------------------------------------------------------ applying a plan */

  predicate Writes(it: Item) {
    it.action.Create? || it.action.Update? || it.action.Delete?
  }

  /** REPLACE with the item's RRset, DELETE when it carries none. */
  function Effect(it: Item, current: Option<RRset>): Option<RRset> {
    if !Writes(it) then current else if it.action.Delete? then None else it.rrset
  }

  function Put(w: World, owner: string, r: Option<RRset>): World {
    if r.Some? then w[owner := r.value] else w - {owner}
  }

  function ApplyOne(w: World, it: Item): World {
    if Writes(it) then Put(w, it.owner, Effect(it, Get(w, it.owner))) else w
  }

  function Apply(items: seq<Item>, w: World): World {
    if items == [] then w else ApplyOne(Apply(items[..|items| - 1], w), items[|items| - 1])
  }

  function Others(r: Option<RRset>, target: string): seq<AddressRecord> {
    if r.Some? then OthersIn(r.value.records, target) else []
  }

  /** Exactly one record, naming the target, with this TTL and flag. */
  predicate Points(r: Option<RRset>, target: string, ttl: int, disabled: bool) {
    r.Some? && r.value.ttl == ttl && |r.value.records| == 1 &&
    SameName(r.value.records[0].content, target) && r.value.records[0].disabled == disabled
  }

  /** One desired address, applied and looked at again. */
  lemma DesiredSettles(rec: AddressRecord, m: ReverseZoneMatch, current: Option<RRset>, want: RRset,
                       target: string, takeover: bool)
    requires want.records == [AddressRecord(target, rec.disabled)]
    ensures var it := DesiredAt(rec, m, current, want, target, takeover);
            var after := Effect(it, current);
            !Writes(DesiredAt(rec, m, after, want, target, takeover)) &&
            (it.action.Conflict? ==> after == current) &&
            (!it.action.Conflict? ==> Points(after, target, want.ttl, rec.disabled)) &&
            (!takeover ==> Others(after, target) == Others(current, target)) &&
            (it.action.Conflict? <==> !takeover && Others(current, target) != [])
  {
    hide Lower;
    OneOurs(AddressRecord(target, rec.disabled), target);
  }

  lemma OneOurs(r: AddressRecord, target: string)
    requires SameName(r.content, target)
    ensures OthersIn([r], target) == []
  {}

  /** One address taken away: nothing at its owner names the target any more, and what
      named anything else is untouched. */
  lemma RemovedSettles(rec: AddressRecord, m: ReverseZoneMatch, current: Option<RRset>, target: string)
    ensures var it := RemovedAt(rec, m, current, target);
            var after := Effect(it, current);
            !Writes(RemovedAt(rec, m, after, target)) &&
            Others(after, target) == Others(current, target) &&
            (after.Some? ==> OthersIn(after.value.records, target) == after.value.records) &&
            (after.Some? && after.value.records != [] ==> current.Some? && after.value.ttl == current.value.ttl)
  {
    hide Lower;
    if current.Some? { OthersTwice(current.value.records, target); }
  }

  lemma {:induction false} OthersTwice(records: seq<AddressRecord>, target: string)
    ensures OthersIn(OthersIn(records, target), target) == OthersIn(records, target)
  {
    var o := OthersIn(records, target);
    AllOther(o, target);
  }

  lemma {:induction false} AllOther(records: seq<AddressRecord>, target: string)
    requires forall i :: 0 <= i < |records| ==> !SameName(records[i].content, target)
    ensures OthersIn(records, target) == records
  {
    if records != [] { AllOther(records[..|records| - 1], target); }
  }

  /* ----------------------------------- the items are one per address */

  predicate Valid(rec: AddressRecord) {
    ParseIp(rec.content).Some?
  }

  /** Pairwise different addresses. */
  predicate Distinct(recs: seq<AddressRecord>) {
    forall i, j :: 0 <= i < j < |recs| ==> !SameAddress(recs[i].content, recs[j].content)
  }

  lemma AppendDistinct(out: seq<AddressRecord>, r: AddressRecord)
    requires Distinct(out) && !Represented(out, r)
    ensures Distinct(out + [r])
  {
    hide SameAddress;
    var u := out + [r];
    forall i, j | 0 <= i < j < |u| ensures !SameAddress(u[i].content, u[j].content) {
      if j == |out| { assert out[i].content == u[i].content; }
    }
  }

  lemma {:induction false} UniqueLaws(records: seq<AddressRecord>)
    ensures forall x :: x in UniqueAddresses(records) ==> x in records
    ensures Distinct(UniqueAddresses(records))
  {
    hide Distinct, Represented;
    if records == [] {
      NoneDistinct();
    } else {
      var n := |records| - 1;
      UniqueLaws(records[..n]);
      assert records == records[..n] + [records[n]];
      var out := UniqueAddresses(records[..n]);
      if !Represented(out, records[n]) { AppendDistinct(out, records[n]); }
    }
  }

  lemma NoneDistinct()
    ensures Distinct([])
  {}

  /** Every valid address of the records has a record standing for it. */
  lemma {:induction false} UniqueCovers(records: seq<AddressRecord>, r: AddressRecord) returns (x: AddressRecord)
    requires r in records && Valid(r)
    ensures x in UniqueAddresses(records) && ParseIp(x.content) == ParseIp(r.content)
  {
    hide ParseIp;
    var n := |records| - 1;
    var u := UniqueAddresses(records[..n]);
    if r in records[..n] {
      x := UniqueCovers(records[..n], r);
    } else {
      assert r == records[n];
      if Represented(u, r) {
        var i :| 0 <= i < |u| && SameAddress(u[i].content, r.content);
        x := u[i];
        SameAddressValid(x.content, r.content);
      } else {
        x := r;
      }
    }
  }

  lemma SameAddressValid(a: string, b: string)
    requires SameAddress(a, b) && ParseIp(b).Some?
    ensures ParseIp(a) == ParseIp(b)
  {
    if ParseIp(a).None? {
      ParseIpTrims(a);
      ParseIpTrims(b);
    }
  }

  lemma TrimTwice(s: string)
    ensures Trim(Trim(s)) == Trim(s)
  {}

  /** Both parsers trim, so an address and its trimmed text are the same. */
  lemma ParseIpTrims(s: string)
    ensures ParseIp(s) == ParseIp(Trim(s))
  {
    hide Trim, Lower, Split, Octets, DottedTail, Assemble, AllIpv6Chars, TripleColon, Join;
    TrimTwice(s);
  }

  lemma {:induction false} GoneLaws(desired: seq<AddressRecord>, previous: seq<AddressRecord>)
    ensures var g := Gone(desired, previous);
            (forall x :: x in g <==> x in previous && !Represented(desired, x)) &&
            (Distinct(previous) ==> Distinct(g))
  {
    hide SameAddress, Represented;
    if previous != [] {
      var n := |previous| - 1;
      GoneLaws(desired, previous[..n]);
      assert previous == previous[..n] + [previous[n]];
      var init, g := Gone(desired, previous[..n]), Gone(desired, previous);
      if Distinct(previous) {
        forall i, j | 0 <= i < j < |g| ensures !SameAddress(g[i].content, g[j].content) {
          if j == |init| {
            assert init[i] in previous[..n];
            var k :| 0 <= k < n && previous[k] == init[i];
          } else {
            assert g[i] == init[i] && g[j] == init[j];
          }
        }
      }
    }
  }

  /** The records the plan has items for: different addresses, desired ones first. */
  lemma PlanRecords(job: Job)
    ensures Distinct(Desired(job)) && Distinct(Removed(job))
    ensures forall x, y :: x in Desired(job) && y in Removed(job) ==> !SameAddress(x.content, y.content)
    ensures forall x :: x in Desired(job) || x in Removed(job) ==> x in AllRecords(job)
  {
    hide SameAddress, Distinct, Represented, UniqueAddresses, Gone;
    var previous := UniqueAddresses(Records(job.before));
    NoneDistinct();
    UniqueLaws(job.change.records);
    UniqueLaws(Records(job.before));
    GoneLaws(Desired(job), previous);
    forall x, y | x in Desired(job) && y in Removed(job) ensures !SameAddress(x.content, y.content) {
      NotRepresented(Desired(job), x, y);
    }
  }

  lemma NotRepresented(rs: seq<AddressRecord>, x: AddressRecord, y: AddressRecord)
    requires x in rs && !Represented(rs, y)
    ensures !SameAddress(x.content, y.content)
  {
    hide SameAddress;
    var i :| 0 <= i < |rs| && rs[i] == x;
    assert rs[i].content == x.content;
  }

  lemma ItemForIp(job: Job, w: World, desired: bool, rec: AddressRecord)
    ensures ItemFor(job, w, desired, rec).Some? <==> Valid(rec)
    ensures var it := ItemFor(job, w, desired, rec);
            it.Some? ==>
              it.value.ip == rec.content &&
              (it.value.reverseZone.Some? <==> FindReverseZone(rec.content, job.zones).Some?) &&
              (it.value.reverseZone.Some? ==>
                 var m := FindReverseZone(rec.content, job.zones).value;
                 it.value.owner == m.owner && it.value.reverseZone == Some(m.zone) &&
                 it.value == HostedItem(job, w, desired, rec, m)) &&
              (Writes(it.value) ==> it.value.reverseZone.Some?)
  {
    hide FindReverseZone, OthersIn, Targets, ParseIp, OwnerOf, Lower, Want;
  }

  lemma {:induction false} SourceOf(job: Job, w: World, desired: bool, recs: seq<AddressRecord>, it: Item)
    returns (rec: AddressRecord)
    requires it in ItemsOf(job, w, desired, recs)
    ensures rec in recs && ItemFor(job, w, desired, rec) == Some(it)
  {
    hide ItemFor;
    var n := |recs| - 1;
    if it in ItemsOf(job, w, desired, recs[..n]) {
      rec := SourceOf(job, w, desired, recs[..n], it);
    } else {
      rec := recs[n];
    }
  }

  lemma {:induction false} ItemIn(job: Job, w: World, desired: bool, recs: seq<AddressRecord>, rec: AddressRecord)
    requires rec in recs && ItemFor(job, w, desired, rec).Some?
    ensures ItemFor(job, w, desired, rec).value in ItemsOf(job, w, desired, recs)
  {
    hide ItemFor;
    var n := |recs| - 1;
    if rec in recs[..n] {
      ItemIn(job, w, desired, recs[..n], rec);
    } else {
      assert rec == recs[n];
    }
  }

  predicate DistinctIps(items: seq<Item>) {
    forall i, j :: 0 <= i < j < |items| ==> ParseIp(items[i].ip) != ParseIp(items[j].ip)
  }

  lemma Differ(a: AddressRecord, b: AddressRecord)
    requires Valid(a) && Valid(b)
    ensures SameAddress(a.content, b.content) <==> ParseIp(a.content) == ParseIp(b.content)
  {
    hide ParseIp;
  }

  lemma {:induction false} ItemsDistinct(job: Job, w: World, desired: bool, recs: seq<AddressRecord>)
    requires Distinct(recs)
    ensures DistinctIps(ItemsOf(job, w, desired, recs))
  {
    hide ItemFor, SameAddress, ParseIp;
    if recs != [] {
      var n := |recs| - 1;
      ItemsDistinct(job, w, desired, recs[..n]);
      var init, items, it := ItemsOf(job, w, desired, recs[..n]), ItemsOf(job, w, desired, recs),
        ItemFor(job, w, desired, recs[n]);
      if it.Some? {
        forall i | 0 <= i < |init| ensures ParseIp(items[i].ip) != ParseIp(it.value.ip) {
          var rec := SourceOf(job, w, desired, recs[..n], init[i]);
          var k :| 0 <= k < n && recs[k] == rec;
          ItemForIp(job, w, desired, rec);
          ItemForIp(job, w, desired, recs[n]);
          Differ(rec, recs[n]);
        }
      }
    }
  }

  /** Different items are for different addresses. */
  lemma PlanDistinct(job: Job, w: World)
    ensures DistinctIps(Plan(job, w))
  {
    hide ItemFor, SameAddress, ParseIp, Desired, Removed;
    PlanRecords(job);
    ItemsDistinct(job, w, true, Desired(job));
    ItemsDistinct(job, w, false, Removed(job));
    var a, b := ItemsOf(job, w, true, Desired(job)), ItemsOf(job, w, false, Removed(job));
    forall i, j | 0 <= i < |a| && 0 <= j < |b| ensures ParseIp(a[i].ip) != ParseIp(b[j].ip) {
      var x := SourceOf(job, w, true, Desired(job), a[i]);
      var y := SourceOf(job, w, false, Removed(job), b[j]);
      ItemForIp(job, w, true, x);
      ItemForIp(job, w, false, y);
      Differ(x, y);
    }
  }

  /** What an item of a plan came from. */
  lemma PlanSource(job: Job, w: World, it: Item) returns (desired: bool, rec: AddressRecord)
    requires it in Plan(job, w)
    ensures rec in (if desired then Desired(job) else Removed(job))
    ensures ItemFor(job, w, desired, rec) == Some(it)
  {
    hide ItemFor, Desired, Removed;
    desired := it in ItemsOf(job, w, true, Desired(job));
    rec := SourceOf(job, w, desired, if desired then Desired(job) else Removed(job), it);
  }

  /** Every distinct valid address before or after the change has exactly one item. */
  lemma OneItemPerAddress(job: Job, w: World, r: AddressRecord) returns (i: nat)
    requires r in AllRecords(job) && Valid(r)
    ensures i < |Plan(job, w)| && ParseIp(Plan(job, w)[i].ip) == ParseIp(r.content)
    ensures forall j :: 0 <= j < |Plan(job, w)| && j != i ==> ParseIp(Plan(job, w)[j].ip) != ParseIp(r.content)
  {
    PlanDistinct(job, w);
    var desired, x := Representative(job, r);
    ItemForIp(job, w, desired, x);
    ItemIn(job, w, desired, if desired then Desired(job) else Removed(job), x);
    hide ItemFor, Desired, Removed, ParseIp;
    var it := ItemFor(job, w, desired, x).value;
    assert it in Plan(job, w);
    i :| 0 <= i < |Plan(job, w)| && Plan(job, w)[i] == it;
  }

  lemma Representative(job: Job, r: AddressRecord) returns (desired: bool, x: AddressRecord)
    requires r in AllRecords(job) && Valid(r)
    ensures x in (if desired then Desired(job) else Removed(job)) && ParseIp(x.content) == ParseIp(r.content)
  {
    hide ParseIp, Represented;
    if job.change.kind.Upsert? && r in job.change.records {
      desired := true;
      x := UniqueCovers(job.change.records, r);
    } else {
      x := UniqueCovers(Records(job.before), r);
      GoneLaws(Desired(job), UniqueAddresses(Records(job.before)));
      desired := Represented(Desired(job), x);
      if desired { x := RepresentedBy(Desired(job), x); }
    }
  }

  lemma RepresentedBy(rs: seq<AddressRecord>, r: AddressRecord) returns (x: AddressRecord)
    requires Represented(rs, r) && Valid(r)
    ensures x in rs && ParseIp(x.content) == ParseIp(r.content)
  {
    hide ParseIp, SameAddress;
    var i :| 0 <= i < |rs| && SameAddress(rs[i].content, r.content);
    x := rs[i];
    SameAddressValid(x.content, r.content);
  }

  /* --------------------------------------------- what applying a plan does */

  predicate Hosted?(it: Item) {
    it.reverseZone.Some?
  }

  /** No two hosted items share an owner, and only hosted items write. */
  predicate OwnersOnce(items: seq<Item>) {
    (forall i :: 0 <= i < |items| && Writes(items[i]) ==> Hosted?(items[i])) &&
    (forall i, j :: 0 <= i < j < |items| && Hosted?(items[i]) && Hosted?(items[j]) ==> items[i].owner != items[j].owner)
  }

  lemma PlanOwnersOnce(job: Job, w: World)
    ensures OwnersOnce(Plan(job, w))
  {
    hide ItemFor, ParseIp, FindReverseZone, Plan, Desired, Removed;
    var items := Plan(job, w);
    PlanDistinct(job, w);
    forall i | 0 <= i < |items|
      ensures Writes(items[i]) ==> Hosted?(items[i])
      ensures Hosted?(items[i]) ==> FindReverseZone(items[i].ip, job.zones).Some? &&
                                    items[i].owner == FindReverseZone(items[i].ip, job.zones).value.owner
    {
      var d, rec := PlanSource(job, w, items[i]);
      ItemForIp(job, w, d, rec);
    }
    forall i, j | 0 <= i < j < |items| && Hosted?(items[i]) && Hosted?(items[j])
      ensures items[i].owner != items[j].owner
    {
      if items[i].owner == items[j].owner {
        OwnerDeterminesAddress(items[i].ip, items[j].ip, job.zones, job.zones);
      }
    }
  }

  lemma {:induction false} ApplyElsewhere(items: seq<Item>, w: World, owner: string)
    requires forall i :: 0 <= i < |items| && Writes(items[i]) ==> items[i].owner != owner
    ensures Get(Apply(items, w), owner) == Get(w, owner)
  {
    if items != [] { ApplyElsewhere(items[..|items| - 1], w, owner); }
  }

  /** Every hosted item has its effect, and no other. */
  lemma {:induction false} ApplyAt(items: seq<Item>, w: World, i: nat)
    requires OwnersOnce(items) && i < |items| && Hosted?(items[i])
    ensures Get(Apply(items, w), items[i].owner) == Effect(items[i], Get(w, items[i].owner))
  {
    var n := |items| - 1;
    assert OwnersOnce(items[..n]);
    if i < n {
      ApplyAt(items[..n], w, i);
    } else {
      ApplyElsewhere(items[..n], w, items[n].owner);
    }
  }

  function After(job: Job, w: World): World {
    Apply(Plan(job, w), w)
  }

  /** The RRset at the owner of a hosted record after the plan is applied. */
  lemma AfterAt(job: Job, w: World, desired: bool, rec: AddressRecord)
    requires rec in (if desired then Desired(job) else Removed(job))
    requires FindReverseZone(rec.content, job.zones).Some?
    ensures var m := FindReverseZone(rec.content, job.zones).value;
            Get(After(job, w), m.owner) == Effect(HostedItem(job, w, desired, rec, m), Get(w, m.owner))
  {
    FoundIsValid(rec.content, job.zones);
    ItemForIp(job, w, desired, rec);
    ItemIn(job, w, desired, if desired then Desired(job) else Removed(job), rec);
    PlanOwnersOnce(job, w);
    hide ItemFor, Desired, Removed, FindReverseZone, HostedItem, Effect, OwnersOnce;
    var it := ItemFor(job, w, desired, rec).value;
    assert it in Plan(job, w);
    var i :| 0 <= i < |Plan(job, w)| && Plan(job, w)[i] == it;
    ApplyAt(Plan(job, w), w, i);
  }

  lemma FoundIsValid(ip: string, zones: seq<string>)
    requires FindReverseZone(ip, zones).Some?
    ensures ParseIp(ip).Some?
  {}

  /** An owner the plan is about is the home of one of its records; any other is untouched. */
  lemma AfterElsewhere(job: Job, w: World, owner: string) returns (about: bool, desired: bool, rec: AddressRecord)
    ensures about ==> rec in (if desired then Desired(job) else Removed(job)) &&
                      FindReverseZone(rec.content, job.zones).Some? &&
                      FindReverseZone(rec.content, job.zones).value.owner == owner
    ensures !about ==> Get(After(job, w), owner) == Get(w, owner)
  {
    hide ItemFor, FindReverseZone, Desired, Removed, Plan;
    var items := Plan(job, w);
    if i :| 0 <= i < |items| && Writes(items[i]) && items[i].owner == owner {
      about := true;
      desired, rec := PlanSource(job, w, items[i]);
      ItemForIp(job, w, desired, rec);
    } else {
      about, desired, rec := false, false, AddressRecord("", false);
      ApplyElsewhere(items, w, owner);
    }
  }

  /** Without takeover, whatever names anything other than the forward name is the same
      after as before, at every owner in the world. */
  lemma NoClobber(job: Job, w: World, owner: string)
    requires !job.takeover
    ensures Others(Get(After(job, w), owner), Target(job)) == Others(Get(w, owner), Target(job))
  {
    hide FindReverseZone, Desired, Removed, DesiredAt, RemovedAt, Effect, Others, After, Lower, Points;
    var about, desired, rec := AfterElsewhere(job, w, owner);
    if about {
      var m := FindReverseZone(rec.content, job.zones).value;
      AfterAt(job, w, desired, rec);
      if desired { DesiredSettles(rec, m, Get(w, owner), Want(job, rec), Target(job), false); }
      else { RemovedSettles(rec, m, Get(w, owner), Target(job)); }
    }
  }

  /** With takeover it can change only at the owners of desired addresses. */
  lemma TakeoverOnlyAtDesired(job: Job, w: World, owner: string) returns (rec: AddressRecord)
    requires Others(Get(After(job, w), owner), Target(job)) != Others(Get(w, owner), Target(job))
    ensures rec in Desired(job) && FindReverseZone(rec.content, job.zones).Some? &&
            FindReverseZone(rec.content, job.zones).value.owner == owner
  {
    hide FindReverseZone, Desired, Removed, DesiredAt, RemovedAt, Effect, Others, After, Lower;
    var about, desired, r := AfterElsewhere(job, w, owner);
    rec := r;
    var m := FindReverseZone(rec.content, job.zones).value;
    AfterAt(job, w, desired, rec);
    if !desired { RemovedSettles(rec, m, Get(w, owner), Target(job)); }
  }

  /** A desired hosted address ends with exactly one PTR naming the forward name at the
      planned TTL and flag, unless something else held its owner and no takeover was asked. */
  lemma DesiredPoints(job: Job, w: World, rec: AddressRecord)
    requires rec in Desired(job) && FindReverseZone(rec.content, job.zones).Some?
    ensures var owner := FindReverseZone(rec.content, job.zones).value.owner;
            if !job.takeover && Others(Get(w, owner), Target(job)) != []
            then Get(After(job, w), owner) == Get(w, owner)
            else Points(Get(After(job, w), owner), Target(job), WantTtl(job), rec.disabled)
  {
    hide FindReverseZone, Desired, Removed, DesiredAt, RemovedAt, Effect, Others, After, Lower, Points;
    var m := FindReverseZone(rec.content, job.zones).value;
    AfterAt(job, w, true, rec);
    DesiredSettles(rec, m, Get(w, m.owner), Want(job, rec), Target(job), job.takeover);
  }

  /** No PTR of a removed hosted address names the forward name any more. */
  lemma RemovedGone(job: Job, w: World, rec: AddressRecord)
    requires rec in Removed(job) && FindReverseZone(rec.content, job.zones).Some?
    ensures var r := Get(After(job, w), FindReverseZone(rec.content, job.zones).value.owner);
            r.Some? ==> forall i :: 0 <= i < |r.value.records| ==> !SameName(r.value.records[i].content, Target(job))
  {
    hide FindReverseZone, Desired, Removed, DesiredAt, RemovedAt, Effect, Others, After, Lower, SameName;
    var m := FindReverseZone(rec.content, job.zones).value;
    AfterAt(job, w, false, rec);
    RemovedSettles(rec, m, Get(w, m.owner), Target(job));
  }

  /** Planning the same change again asks for nothing. */
  lemma FixedPoint(job: Job, w: World, it: Item)
    requires it in Plan(job, After(job, w))
    ensures !Writes(it)
  {
    var w' := After(job, w);
    var desired, rec := PlanSource(job, w', it);
    ItemForIp(job, w', desired, rec);
    SettledItem(job, w, desired, rec);
  }

  lemma SettledItem(job: Job, w: World, desired: bool, rec: AddressRecord)
    requires rec in (if desired then Desired(job) else Removed(job))
    ensures FindReverseZone(rec.content, job.zones).Some? ==>
              !Writes(HostedItem(job, After(job, w), desired, rec, FindReverseZone(rec.content, job.zones).value))
  {
    hide FindReverseZone, Desired, Removed, DesiredAt, RemovedAt, Effect, Others, After, Lower, Points, Writes;
    if FindReverseZone(rec.content, job.zones).Some? {
      var m := FindReverseZone(rec.content, job.zones).value;
      AfterAt(job, w, desired, rec);
      if desired { DesiredSettles(rec, m, Get(w, m.owner), Want(job, rec), Target(job), job.takeover); }
      else { RemovedSettles(rec, m, Get(w, m.owner), Target(job)); }
    }
  }

  /** The job of the same change once the forward RRset is what it became. */
  function Saved(job: Job): Job {
    job.(before := if job.change.kind.Upsert? then Some(RRset(WantTtl(job), job.change.records)) else None)
  }

  /** So does planning it against the forward RRset it left. */
  lemma FixedPointAfterSave(job: Job, w: World, it: Item)
    requires it in Plan(Saved(job), After(job, w))
    ensures !Writes(it)
  {
    var w', next := After(job, w), Saved(job);
    var desired, rec := PlanSource(next, w', it);
    ItemForIp(next, w', desired, rec);
    NothingRemoved(job);
    assert desired && Desired(next) == Desired(job);
    SettledItem(job, w, true, rec);
    SameWant(job, rec);
  }

  lemma SameWant(job: Job, rec: AddressRecord)
    ensures Want(Saved(job), rec) == Want(job, rec) || !job.change.kind.Upsert?
  {}

  lemma NothingRemoved(job: Job)
    ensures Removed(Saved(job)) == []
  {
    hide SameAddress, UniqueAddresses, Gone, Represented;
    if job.change.kind.Upsert? {
      var u := UniqueAddresses(job.change.records);
      GoneLaws(u, u);
      if Gone(u, u) != [] {
        var x := Gone(u, u)[0];
        assert x in Gone(u, u);
        SelfSame(x.content);
        NotRepresented(u, x, x);
      }
    } else {
      NoneGone();
    }
  }

  lemma NoneGone()
    ensures Gone([], UniqueAddresses([])) == []
  {}

  lemma SelfSame(a: string)
    ensures SameAddress(a, a)
  {}

  /* ------------------------------------------- what has to be fetched */

  lemma CandidatesStep(recs: seq<AddressRecord>, zones: seq<string>)
    requires recs != []
    ensures var init, m := Candidates(recs[..|recs| - 1], zones), FindReverseZone(recs[|recs| - 1].content, zones);
            Candidates(recs, zones) == if m.Some? then init[m.value.owner := m.value.zone] else init
  {}

  lemma {:induction false} CandidateIn(recs: seq<AddressRecord>, zones: seq<string>, rec: AddressRecord)
    requires rec in recs && FindReverseZone(rec.content, zones).Some?
    ensures var m := FindReverseZone(rec.content, zones).value;
            m.owner in Candidates(recs, zones) && Candidates(recs, zones)[m.owner] == m.zone
  {
    hide *;
    var n := |recs| - 1;
    var m, last := FindReverseZone(rec.content, zones).value, FindReverseZone(recs[n].content, zones);
    CandidatesStep(recs, zones);
    if rec in recs[..n] { CandidateIn(recs[..n], zones, rec); } else { assert rec == recs[n]; }
    if last.Some? && last.value.owner == m.owner {
      OwnerDeterminesAddress(recs[n].content, rec.content, zones, zones);
      SameMatch(recs[n].content, rec.content, zones);
    }
  }

  /** The match depends on the address only, not on its spelling. */
  lemma SameMatch(a: string, b: string, zones: seq<string>)
    requires ParseIp(a) == ParseIp(b)
    ensures FindReverseZone(a, zones) == FindReverseZone(b, zones)
  {}

  /** Every hosted item, so every write, is at a candidate owner and in its zone. */
  lemma ItemsAreCandidates(job: Job, w: World, it: Item)
    requires it in Plan(job, w) && Hosted?(it)
    ensures var c := Candidates(AllRecords(job), job.zones);
            it.owner in c && it.reverseZone == Some(c[it.owner])
  {
    hide FindReverseZone, Candidates, AllRecords, Plan, ItemFor, Desired, Removed;
    var desired, rec := PlanSource(job, w, it);
    ItemForIp(job, w, desired, rec);
    PlanRecords(job);
    CandidateIn(AllRecords(job), job.zones, rec);
  }

  lemma {:induction false} ItemsAgree(job: Job, v: World, w: World, desired: bool, recs: seq<AddressRecord>)
    requires forall x :: x in recs ==> x in AllRecords(job)
    requires forall o :: o in Candidates(AllRecords(job), job.zones) ==> Get(v, o) == Get(w, o)
    ensures ItemsOf(job, v, desired, recs) == ItemsOf(job, w, desired, recs)
  {
    hide FindReverseZone, Candidates, AllRecords, HostedItem;
    if recs != [] {
      var n := |recs| - 1;
      ItemsAgree(job, v, w, desired, recs[..n]);
      var m := FindReverseZone(recs[n].content, job.zones);
      if m.Some? {
        CandidateIn(AllRecords(job), job.zones, recs[n]);
        SameCurrent(job, v, w, desired, recs[n], m.value);
      }
    }
  }

  lemma SameCurrent(job: Job, v: World, w: World, desired: bool, rec: AddressRecord, m: ReverseZoneMatch)
    requires Get(v, m.owner) == Get(w, m.owner)
    ensures HostedItem(job, v, desired, rec, m) == HostedItem(job, w, desired, rec, m)
  {}

  /** The plan depends on nothing but the RRsets at the candidate owners. */
  lemma ReadsOnlyCandidates(job: Job, w: World)
    ensures Plan(job, map o | o in w && o in Candidates(AllRecords(job), job.zones) :: w[o]) == Plan(job, w)
  {
    hide Candidates, AllRecords, Desired, Removed, ItemsOf;
    var v := map o | o in w && o in Candidates(AllRecords(job), job.zones) :: w[o];
    PlanRecords(job);
    ItemsAgree(job, v, w, true, Desired(job));
    ItemsAgree(job, v, w, false, Removed(job));
  }
}
