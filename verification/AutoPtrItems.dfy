/** What each item of a plan of automatic PTR maintenance says, and what is stored once it
    is applied, in terms of the change and of the PTR records found. */
module AutoPtrItems {
  import opened Options
  import opened Text
  import opened Selection
  import opened ReverseName
  import opened AutoPtr

  /* ------------------------------------------------ which addresses a plan is for */

  ghost function OneAddress(): (AddressRecord, AddressRecord) -> bool {
    (a: AddressRecord, b: AddressRecord) => SameAddress(a.content, b.content)
  }

  /** Addresses are the same when they parse to the same, or, unparsed, are spelled the same. */
  lemma SameAddressIs(a: string, b: string)
    ensures SameAddress(a, b) <==> ParseIp(a) == ParseIp(b) && (ParseIp(a).None? ==> Trim(a) == Trim(b))
  {
    hide ParseIp, Trim;
    ParseIpTrims(a);
    ParseIpTrims(b);
  }

  /** The first record of each address. */
  lemma {:induction false} UniqueAre(records: seq<AddressRecord>)
    ensures AreFirsts(records, OneAddress(), UniqueAddresses(records))
  {
    hide AreFirsts, SameAddress;
    if records == [] {
      FirstsNone(OneAddress());
    } else {
      var init, last := records[..|records| - 1], records[|records| - 1];
      UniqueAre(init);
      FirstsNext(init, OneAddress(), UniqueAddresses(init), last);
      assert init + [last] == records;
      KnownIff(init, last);
    }
  }

  lemma KnownIff(records: seq<AddressRecord>, r: AddressRecord)
    ensures Represented(UniqueAddresses(records), r) <==>
            exists j :: 0 <= j < |records| && SameAddress(records[j].content, r.content)
  {
    hide SameAddress, UniqueAddresses;
    UniqueLaws(records);
    var out := UniqueAddresses(records);
    if i :| 0 <= i < |out| && SameAddress(out[i].content, r.content) {
      assert out[i] in out;
      var j :| 0 <= j < |records| && records[j] == out[i];
    }
    if j :| 0 <= j < |records| && SameAddress(records[j].content, r.content) {
      var i := Standing(records, j);
      SameAddressIs(out[i].content, records[j].content);
      SameAddressIs(records[j].content, r.content);
      SameAddressIs(out[i].content, r.content);
    }
  }

  /** Every record has one kept that stands for it. */
  lemma {:induction false} Standing(records: seq<AddressRecord>, j: nat) returns (i: nat)
    requires j < |records|
    ensures i < |UniqueAddresses(records)| &&
            SameAddress(UniqueAddresses(records)[i].content, records[j].content)
  {
    hide SameAddress;
    var n := |records| - 1;
    if j < n {
      i := Standing(records[..n], j);
    } else {
      i := StandsFor(UniqueAddresses(records[..n]), records[n]);
    }
  }

  lemma StandsFor(out: seq<AddressRecord>, r: AddressRecord) returns (i: nat)
    ensures var next := if Represented(out, r) then out else out + [r];
            i < |next| && SameAddress(next[i].content, r.content)
  {
    hide SameAddress;
    i := |out|;
    if Represented(out, r) { i :| 0 <= i < |out| && SameAddress(out[i].content, r.content); }
    SameAddressIs(r.content, r.content);
  }

  ghost function Kept(): AddressRecord -> AddressRecord {
    (r: AddressRecord) => r
  }

  ghost function NotIn(desired: seq<AddressRecord>): AddressRecord -> bool {
    (r: AddressRecord) => forall d :: d in desired ==> !SameAddress(d.content, r.content)
  }

  /** The addresses of an upsert, and the previous addresses that are not among them. */
  lemma PlanAddresses(job: Job) returns (previous: seq<AddressRecord>)
    ensures if job.change.kind.Upsert? then AreFirsts(job.change.records, OneAddress(), Desired(job))
            else Desired(job) == []
    ensures AreFirsts(if job.before.Some? then job.before.value.records else [], OneAddress(), previous)
    ensures IsSelection(previous, NotIn(Desired(job)), Kept(), Removed(job))
  {
    hide AreFirsts, UniqueAddresses, Gone, IsSelection;
    previous := UniqueAddresses(Records(job.before));
    UniqueAre(job.change.records);
    UniqueAre(Records(job.before));
    GoneIs(Desired(job), previous);
  }

  lemma {:induction false} GoneIs(desired: seq<AddressRecord>, previous: seq<AddressRecord>)
    ensures IsSelection(previous, NotIn(desired), Kept(), Gone(desired, previous))
  {
    hide IsSelection, SameAddress;
    if previous == [] {
      SelectNone(NotIn(desired), Kept());
    } else {
      var init, last := previous[..|previous| - 1], previous[|previous| - 1];
      GoneIs(desired, init);
      SelectNext(init, NotIn(desired), Kept(), Gone(desired, init), last);
      assert init + [last] == previous;
      if d :| d in desired && SameAddress(d.content, last.content) {
        var i :| 0 <= i < |desired| && desired[i] == d;
      }
    }
  }

  /* ------------------------------------------------------------- their items */

  ghost function IsAddress(): AddressRecord -> bool {
    (r: AddressRecord) => ParseIp(r.content).Some?
  }

  ghost function ItemAt(job: Job, w: World, desired: bool): AddressRecord -> Item {
    (r: AddressRecord) =>
      var it := ItemFor(job, w, desired, r);
      if it.Some? then it.value else Item("", "", None, Skip, NoReason, [], None)
  }

  lemma {:induction false} ItemsOfIs(job: Job, w: World, desired: bool, recs: seq<AddressRecord>)
    ensures IsSelection(recs, IsAddress(), ItemAt(job, w, desired), ItemsOf(job, w, desired, recs))
  {
    hide IsSelection, ItemFor;
    if recs == [] {
      SelectNone(IsAddress(), ItemAt(job, w, desired));
    } else {
      var init, last := recs[..|recs| - 1], recs[|recs| - 1];
      ItemsOfIs(job, w, desired, init);
      SelectNext(init, IsAddress(), ItemAt(job, w, desired), ItemsOf(job, w, desired, init), last);
      assert init + [last] == recs;
      ItemForIp(job, w, desired, last);
    }
  }

  /** A plan has one item for each desired and then each removed record that is an address,
      in their order. */
  lemma PlanIs(job: Job, w: World) returns (desired: seq<Item>, removed: seq<Item>)
    ensures Plan(job, w) == desired + removed
    ensures IsSelection(Desired(job), IsAddress(), ItemAt(job, w, true), desired)
    ensures IsSelection(Removed(job), IsAddress(), ItemAt(job, w, false), removed)
  {
    hide IsSelection, ItemsOf, Desired, Removed;
    desired, removed := ItemsOf(job, w, true, Desired(job)), ItemsOf(job, w, false, Removed(job));
    ItemsOfIs(job, w, true, Desired(job));
    ItemsOfIs(job, w, false, Removed(job));
  }

  /** An address under no hosted zone is skipped. */
  lemma SkippedItem(job: Job, w: World, desired: bool, rec: AddressRecord)
    requires IsAddress()(rec) && FindReverseZone(rec.content, job.zones).None?
    ensures ItemAt(job, w, desired)(rec) ==
            Item(rec.content, OwnerOf(ParseIp(rec.content).value), None, Skip, NoReverseZone, [], None)
  {
    hide FindReverseZone, ParseIp, OwnerOf;
  }

  function RecordsOf(current: Option<RRset>): seq<AddressRecord> {
    if current.Some? then current.value.records else []
  }

  predicate Names(r: AddressRecord, job: Job) {
    Lower(r.content) == Lower(job.change.name)
  }

  /** Some record found names anything but the forward name. */
  predicate Foreign(found: seq<AddressRecord>, job: Job) {
    exists i :: 0 <= i < |found| && !Names(found[i], job)
  }

  /** The TTL of the change, or else the one before it, or else zero. */
  predicate PlannedTtl(job: Job, ttl: int) {
    (job.change.ttl.Some? ==> ttl == job.change.ttl.value) &&
    (job.change.ttl.None? && job.before.Some? ==> ttl == job.before.value.ttl) &&
    (job.change.ttl.None? && job.before.None? ==> ttl == 0)
  }

  /** One enabled or disabled PTR to the forward name, in any case, at that TTL. */
  predicate Settled(rr: RRset, job: Job, rec: AddressRecord) {
    PlannedTtl(job, rr.ttl) && |rr.records| == 1 && Names(rr.records[0], job) && rr.records[0].disabled == rec.disabled
  }

  predicate IsSettled(current: Option<RRset>, job: Job, rec: AddressRecord) {
    current.Some? && Settled(current.value, job, rec)
  }

  /** The same with the name in lower case. */
  predicate Written(rr: RRset, job: Job, rec: AddressRecord) {
    PlannedTtl(job, rr.ttl) && rr.records == [AddressRecord(Lower(job.change.name), rec.disabled)]
  }

  /** A desired hosted address: its PTR afterwards, unless something else held its owner
      and no takeover was asked. */
  lemma DesiredOutcome(job: Job, w: World, rec: AddressRecord)
    requires rec in Desired(job) && FindReverseZone(rec.content, job.zones).Some?
    ensures var owner := FindReverseZone(rec.content, job.zones).value.owner;
            var after := Get(After(job, w), owner);
            if (Foreign(RecordsOf(Get(w, owner)), job) && !job.takeover) || IsSettled(Get(w, owner), job, rec)
            then after == Get(w, owner)
            else after.Some? && Written(after.value, job, rec)
  {
    hide FindReverseZone, Desired, Removed, Lower, After;
    var m := FindReverseZone(rec.content, job.zones).value;
    AfterAt(job, w, true, rec);
    AllOursIff(RecordsOf(Get(w, m.owner)), job);
  }

  lemma AllOursIff(found: seq<AddressRecord>, job: Job)
    ensures AllOurs(found, Target(job)) <==> !Foreign(found, job)
  {
    hide Lower;
    forall i | 0 <= i < |found| ensures SameName(found[i].content, Target(job)) <==> Names(found[i], job) {
      LowerIdempotent(job.change.name);
    }
  }

  /** What the item of a desired hosted address says, given what is stored at its owner. */
  predicate SaysDesired(it: Item, m: ReverseZoneMatch, current: Option<RRset>, job: Job, rec: AddressRecord) {
    var found := RecordsOf(current);
    var settled := IsSettled(current, job, rec);
    it.ip == rec.content && it.owner == m.owner && it.reverseZone == Some(m.zone) && it.reason == NoReason &&
    Contents(found, it.currentTargets) &&
    (it.action.Create? <==> found == []) &&
    (it.action.Conflict? <==> Foreign(found, job) && !job.takeover) &&
    (it.action.Unchanged? <==> settled) &&
    (it.action.Update? <==> found != [] && !settled && (Foreign(found, job) ==> job.takeover)) &&
    (it.rrset.Some? <==> it.action.Create? || it.action.Update?) &&
    (it.rrset.Some? ==> Written(it.rrset.value, job, rec))
  }

  lemma DesiredAtSays(job: Job, rec: AddressRecord, m: ReverseZoneMatch, current: Option<RRset>)
    ensures SaysDesired(DesiredAt(rec, m, current, Want(job, rec), Target(job), job.takeover), m, current, job, rec)
  {
    hide Lower;
    LowerIdempotent(job.change.name);
    AllOursIff(RecordsOf(current), job);
  }

  /** The item of a desired hosted address. */
  lemma DesiredItem(job: Job, w: World, rec: AddressRecord) returns (it: Item)
    requires rec in Desired(job) && FindReverseZone(rec.content, job.zones).Some?
    ensures var m := FindReverseZone(rec.content, job.zones).value;
            it in Plan(job, w) && SaysDesired(it, m, Get(w, m.owner), job, rec)
  {
    FoundIsValid(rec.content, job.zones);
    ItemForIp(job, w, true, rec);
    ItemIn(job, w, true, Desired(job), rec);
    hide FindReverseZone, Desired, Removed, Plan, ParseIp, DesiredAt, SaysDesired, ItemFor, Want, Target;
    it := ItemFor(job, w, true, rec).value;
    var m := FindReverseZone(rec.content, job.zones).value;
    DesiredAtSays(job, rec, m, Get(w, m.owner));
  }

  predicate Contents(found: seq<AddressRecord>, targets: seq<string>) {
    |targets| == |found| && forall i :: 0 <= i < |found| ==> targets[i] == found[i].content
  }

  ghost function Others(job: Job): AddressRecord -> bool {
    (r: AddressRecord) => !Names(r, job)
  }

  ghost function AsFound(): AddressRecord -> AddressRecord {
    (r: AddressRecord) => r
  }

  lemma {:induction false} OthersInIs(found: seq<AddressRecord>, job: Job)
    ensures IsSelection(found, Others(job), AsFound(), OthersIn(found, Target(job)))
  {
    hide IsSelection, Lower;
    if found == [] {
      SelectNone(Others(job), AsFound());
    } else {
      var init, last := found[..|found| - 1], found[|found| - 1];
      OthersInIs(init, job);
      LowerIdempotent(job.change.name);
      SelectNext(init, Others(job), AsFound(), OthersIn(init, Target(job)), last);
      assert init + [last] == found;
    }
  }

  /** What the item of a removed hosted address says, and what it leaves: the records that
      name something else, at their own TTL. */
  predicate SaysRemoved(it: Item, m: ReverseZoneMatch, current: Option<RRset>, rec: AddressRecord,
                        rest: seq<AddressRecord>) {
    var found := RecordsOf(current);
    it.ip == rec.content && it.owner == m.owner && it.reverseZone == Some(m.zone) &&
    Contents(found, it.currentTargets) &&
    (it.action.Delete? <==> found != [] && rest == []) &&
    (it.action.Update? <==> rest != [] && |rest| < |found|) &&
    (it.action.Unchanged? <==> |rest| == |found|) &&
    (it.reason.AlreadyAbsent? <==> found == []) &&
    (it.reason.PointsElsewhere? <==> found != [] && |rest| == |found|) &&
    it.rrset == if it.action.Update? && current.Some? then Some(RRset(current.value.ttl, rest)) else None
  }

  lemma RemovedAtSays(job: Job, rec: AddressRecord, m: ReverseZoneMatch, current: Option<RRset>)
    ensures SaysRemoved(RemovedAt(rec, m, current, Target(job)), m, current, rec,
                        OthersIn(RecordsOf(current), Target(job)))
  {
    hide AllOurs, Lower;
  }

  /** The item of a removed hosted address, and what is stored at its owner afterwards. */
  lemma RemovedItem(job: Job, w: World, rec: AddressRecord) returns (it: Item, rest: seq<AddressRecord>)
    requires rec in Removed(job) && FindReverseZone(rec.content, job.zones).Some?
    ensures var m := FindReverseZone(rec.content, job.zones).value;
            it in Plan(job, w) && SaysRemoved(it, m, Get(w, m.owner), rec, rest) &&
            IsSelection(RecordsOf(Get(w, m.owner)), Others(job), AsFound(), rest) &&
            Get(After(job, w), m.owner) ==
              if |rest| == |RecordsOf(Get(w, m.owner))| then Get(w, m.owner)
              else if rest == [] || m.owner !in w then None
              else Some(RRset(w[m.owner].ttl, rest))
  {
    FoundIsValid(rec.content, job.zones);
    ItemForIp(job, w, false, rec);
    ItemIn(job, w, false, Removed(job), rec);
    AfterAt(job, w, false, rec);
    hide FindReverseZone, Desired, Removed, Plan, ParseIp, RemovedAt, IsSelection, After, ItemFor, Target, Contents;
    it := ItemFor(job, w, false, rec).value;
    var m := FindReverseZone(rec.content, job.zones).value;
    rest := OthersIn(RecordsOf(Get(w, m.owner)), Target(job));
    OthersInIs(RecordsOf(Get(w, m.owner)), job);
    RemovedAtSays(job, rec, m, Get(w, m.owner));
  }
}
