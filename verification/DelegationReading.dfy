/** One level of the referral walk, record by record: who is asked, what each kind of
    answer means, and which servers are asked next. */
module DelegationReading {
  import opened Options
  import opened Text
  import opened Selection
  import opened Delegation

  ghost function NsAt(owner: string): Record -> bool {
    (r: Record) => r.kind == "NS" && Lower(r.name) == owner
  }

  ghost function GlueAt(name: string): Record -> bool {
    (r: Record) => (r.kind == "A" || r.kind == "AAAA") && Lower(r.name) == name
  }

  ghost function DsAt(owner: string): Record -> bool {
    (r: Record) => r.kind == "DS" && Lower(r.name) == owner && r.ds.Some?
  }

  ghost function DataOf(): Record -> string {
    (r: Record) => r.data
  }

  ghost function NameOf(): Record -> string {
    (r: Record) => Lower(r.data)
  }

  ghost function DsOf(): Record -> Ds {
    (r: Record) => if r.ds.Some? then r.ds.value else Ds(0, 0, 0, "")
  }

  /* -------------------------------------------------------- reading records */

  lemma {:induction false} NsNamesIs(records: seq<Record>, owner: string)
    ensures IsSelection(records, NsAt(owner), NameOf(), NsNames(records, owner))
  {
    hide IsSelection;
    if records == [] {
      SelectNone(NsAt(owner), NameOf());
    } else {
      var init, last := records[..|records| - 1], records[|records| - 1];
      NsNamesIs(init, owner);
      SelectNext(init, NsAt(owner), NameOf(), NsNames(init, owner), last);
      assert init + [last] == records;
    }
  }

  lemma {:induction false} DsRecordsIs(records: seq<Record>, owner: string)
    ensures IsSelection(records, DsAt(owner), DsOf(), DsRecords(records, owner))
  {
    hide IsSelection;
    if records == [] {
      SelectNone(DsAt(owner), DsOf());
    } else {
      var init, last := records[..|records| - 1], records[|records| - 1];
      DsRecordsIs(init, owner);
      SelectNext(init, DsAt(owner), DsOf(), DsRecords(init, owner), last);
      assert init + [last] == records;
    }
  }

  /** The glue map lists, under each name, its addresses in order; a name without is absent. */
  lemma {:induction false} GlueIs(records: seq<Record>, name: string)
    ensures IsSelection(records, GlueAt(name), DataOf(), Under(Glue(records), name))
    ensures name in Glue(records) <==> Under(Glue(records), name) != []
  {
    hide IsSelection;
    if records == [] {
      SelectNone(GlueAt(name), DataOf());
    } else {
      var init, last := records[..|records| - 1], records[|records| - 1];
      GlueIs(init, name);
      SelectNext(init, GlueAt(name), DataOf(), Under(Glue(init), name), last);
      assert init + [last] == records;
    }
  }

  /** Reading the owner's names off the NS records or off all records is the same. */
  lemma {:induction false} SameNames(records: seq<Record>, owner: string)
    ensures NsNames(NsRecords(records), owner) == NsNames(records, owner)
  {
    if records != [] {
      var init, last := records[..|records| - 1], records[|records| - 1];
      SameNames(init, owner);
      if last.kind == "NS" {
        assert NsRecords(records)[..|NsRecords(records)| - 1] == NsRecords(init);
      }
    }
  }

  /** The first NS record of a section, if there is one. */
  predicate FirstNs(records: seq<Record>, j: nat) {
    j < |records| && records[j].kind == "NS" && forall i :: 0 <= i < j ==> records[i].kind != "NS"
  }

  lemma {:induction false} NsRecordsAre(records: seq<Record>) returns (j: nat)
    ensures NsRecords(records) == [] <==> forall r :: r in records ==> r.kind != "NS"
    ensures NsRecords(records) != [] ==> FirstNs(records, j) && NsRecords(records)[0] == records[j]
  {
    j := 0;
    if records != [] {
      var init, last := records[..|records| - 1], records[|records| - 1];
      j := NsRecordsAre(init);
      assert records == init + [last];
      if NsRecords(init) == [] {
        j := |init|;
        assert forall i :: 0 <= i < |init| ==> records[i] in init;
      } else {
        assert forall i :: 0 <= i < |init| ==> records[i] == init[i];
      }
    }
  }

  ghost function SameText(): (string, string) -> bool {
    (a: string, b: string) => a == b
  }

  /** Every name once, by first occurrence. */
  lemma {:induction false} DistinctIs(names: seq<string>)
    ensures forall n :: n in Distinct(names) <==> n in names
    ensures forall i, j :: 0 <= i < j < |Distinct(names)| ==> Distinct(names)[i] != Distinct(names)[j]
    ensures AreFirsts(names, SameText(), Distinct(names))
  {
    hide AreFirsts;
    if names == [] {
      FirstsNone(SameText());
    } else {
      var init, last := names[..|names| - 1], names[|names| - 1];
      DistinctIs(init);
      FirstsNext(init, SameText(), Distinct(init), last);
      assert names == init + [last];
    }
  }

  /* ------------------------------------------------------------ asking a level */

  /** The first of the allowed servers that answers is taken, after the failures of all
      before it; and none only when all of them fail. */
  lemma {:induction false} AskIs(setup: Setup, target: string, servers: seq<string>, attempts: nat, i: nat,
                                 error: string) returns (j: nat)
    requires i <= |servers| && i <= attempts
    ensures var a := Ask(setup, target, servers, attempts, i, error);
            var allowed := if |servers| < attempts then |servers| else attempts;
            i <= j <= allowed && (forall k :: i <= k < j ==> setup.query(target, "NS", servers[k]).Failed?) &&
            (a.reply.Some? ==> j < allowed && a.from == servers[j] &&
                               setup.query(target, "NS", servers[j]) == Answered(a.reply.value)) &&
            (a.reply.None? ==> j == allowed && a.from == "") &&
            a.lastError == if j == i then error
                           else servers[j - 1] + ": " + setup.query(target, "NS", servers[j - 1]).reason
    decreases |servers| - i
  {
    j := i;
    if i < |servers| && i < attempts {
      match setup.query(target, "NS", servers[i])
      case Answered(_) =>
      case Failed(reason) => j := AskIs(setup, target, servers, attempts, i + 1, servers[i] + ": " + reason);
    }
  }

  /* -------------------------------------------------------------- the next hop */

  function Flat(parts: seq<seq<string>>): seq<string> {
    if parts == [] then [] else Flat(parts[..|parts| - 1]) + parts[|parts| - 1]
  }

  /** The glue records of a name if there are any, and otherwise what resolving it gives. */
  ghost predicate ReachedBy(setup: Setup, additional: seq<Record>, name: string, addresses: seq<string>) {
    if exists r :: r in additional && GlueAt(name)(r) then IsSelection(additional, GlueAt(name), DataOf(), addresses)
    else addresses == if setup.lookup(name).Some? then setup.lookup(name).value else []
  }

  lemma AddressesAre(setup: Setup, additional: seq<Record>, name: string)
    ensures ReachedBy(setup, additional, name, Addresses(setup, Glue(additional), name))
  {
    hide IsSelection, Glue, Under;
    GlueIs(additional, name);
    SelectionEmptyIff(additional, GlueAt(name), DataOf(), Under(Glue(additional), name));
  }

  /** The next servers, nameserver by nameserver and in order. */
  lemma {:induction false} NextServersAre(setup: Setup, additional: seq<Record>, names: seq<string>)
    returns (parts: seq<seq<string>>)
    ensures NextServers(setup, Glue(additional), names) == Flat(parts) && |parts| == |names|
    ensures forall i :: 0 <= i < |parts| ==> ReachedBy(setup, additional, names[i], parts[i])
  {
    hide ReachedBy, Addresses;
    parts := [];
    if names != [] {
      var n := |names| - 1;
      var init := NextServersAre(setup, additional, names[..n]);
      AddressesAre(setup, additional, names[n]);
      var last := Addresses(setup, Glue(additional), names[n]);
      parts := init + [last];
      assert parts[..n] == init;
    }
  }

  /* ---------------------------------------------------------- what is answered */

  /** The glue of an outcome is what the message's additional section says, name by name. */
  ghost predicate GlueReads(m: Message, glue: map<string, seq<string>>) {
    forall name :: IsSelection(m.additional, GlueAt(name), DataOf(), Under(glue, name)) &&
                   (name in glue <==> Under(glue, name) != [])
  }

  /** The DS set a server gives for the target when it is asked, and nothing when it fails. */
  ghost predicate DsReads(setup: Setup, target: string, from: string, ds: seq<Ds>) {
    match setup.query(target, "DS", from)
    case Answered(d) => IsSelection(d.answer, DsAt(target), DsOf(), ds)
    case Failed(_) => ds == []
  }

  lemma GlueIsRead(m: Message)
    ensures GlueReads(m, Glue(m.additional))
  {
    forall name { GlueIs(m.additional, name); }
  }

  lemma ReadDsIs(setup: Setup, target: string, from: string)
    ensures DsReads(setup, target, from, ReadDs(setup, target, from))
  {
    hide IsSelection, DsRecords;
    match setup.query(target, "DS", from)
    case Answered(d) => DsRecordsIs(d.answer, target);
    case Failed(_) =>
  }

  /** NXDOMAIN: the name is not delegated. */
  lemma ReadsNoName(setup: Setup, target: string, attempts: nat, level: Level, m: Message, from: string, error: string)
    requires m.rcode == 3
    ensures Read(setup, target, attempts, level, m, from, error) ==
            Done(Outcome(target, NotDelegated, [], map[], [], [from], level.path, None))
  {}

  ghost predicate Authoritative(m: Message, target: string) {
    m.aa && exists r :: r in m.answer && NsAt(target)(r)
  }

  /** An authoritative answer for the target: its apex NS set in order. */
  lemma ReadsApex(setup: Setup, target: string, attempts: nat, level: Level, m: Message, from: string, error: string)
    requires m.rcode != 3 && Authoritative(m, target)
    ensures var v := Read(setup, target, attempts, level, m, from, error);
            v.Done? && v.outcome.zone == target && v.outcome.path == level.path && v.outcome.error == None &&
            v.outcome.status == (if level.current == target then Delegated else ServedByParent) &&
            IsSelection(m.answer, NsAt(target), NameOf(), v.outcome.nameservers) && GlueReads(m, v.outcome.glue) &&
            (if level.current == target then v.outcome.ds == [] else DsReads(setup, target, from, v.outcome.ds)) &&
            v.outcome.parentServers == level.servers[..if |level.servers| < attempts then |level.servers| else attempts]
  {
    hide IsSelection, NsNames, ReadDs, Glue, GlueReads, DsReads, NsRecords;
    NsNamesIs(m.answer, target);
    GlueIsRead(m);
    ReadDsIs(setup, target, from);
    var r :| r in m.answer && NsAt(target)(r);
    assert IsNs(r, target);
  }

  ghost predicate NoReferral(m: Message, target: string) {
    m.rcode != 3 && !Authoritative(m, target) && forall r :: r in m.authority ==> r.kind != "NS"
  }

  lemma ReadsNothing(setup: Setup, target: string, attempts: nat, level: Level, m: Message, from: string, error: string)
    requires NoReferral(m, target)
    ensures Read(setup, target, attempts, level, m, from, error) ==
            Done(Outcome(target, NotDelegated, [], map[], [], [from], level.path,
                         Some(from + " returned " + m.rcodeName + " with no referral")))
  {
    hide NsRecords;
    NotApex(m, target);
    var j := NsRecordsAre(m.authority);
  }

  lemma NotApex(m: Message, target: string)
    requires !Authoritative(m, target)
    ensures !(m.aa && exists r :: r in m.answer && IsNs(r, target))
  {
    if r :| r in m.answer && IsNs(r, target) { assert NsAt(target)(r); }
  }

  /** A level none of whose allowed servers answers: unreachable, with the last failure. */
  lemma SilentLevel(setup: Setup, target: string, attempts: nat, level: Level)
    requires forall k :: 0 <= k < |level.servers| && k < attempts ==>
                           setup.query(target, "NS", level.servers[k]).Failed?
    ensures var n := if |level.servers| < attempts then |level.servers| else attempts;
            var last := if n == 0 then level.lastError
                        else level.servers[n - 1] + ": " + setup.query(target, "NS", level.servers[n - 1]).reason;
            Visit(setup, target, attempts, level) ==
              Done(Outcome(target, Unreachable, [], map[], [], [], level.path,
                           Some(if last == "" then "no server answered" else last)))
  {
    hide Read;
    var j := AskIs(setup, target, level.servers, attempts, 0, level.lastError);
  }

  /** A level that answers means what the first answer says. */
  lemma AnsweredLevel(setup: Setup, target: string, attempts: nat, level: Level, j: nat)
    requires j < |level.servers| && j < attempts && setup.query(target, "NS", level.servers[j]).Answered?
    requires forall k :: 0 <= k < j ==> setup.query(target, "NS", level.servers[k]).Failed?
    ensures var last := if j == 0 then level.lastError
                        else level.servers[j - 1] + ": " + setup.query(target, "NS", level.servers[j - 1]).reason;
            Visit(setup, target, attempts, level) ==
              Read(setup, target, attempts, level, setup.query(target, "NS", level.servers[j]).message,
                   level.servers[j], last)
  {
    hide Read;
    var i := AskIs(setup, target, level.servers, attempts, 0, level.lastError);
  }

  /** The zone a referral is about: the owner of its first NS record. */
  ghost predicate ReferralTo(m: Message, target: string, owner: string) {
    m.rcode != 3 && !Authoritative(m, target) &&
    exists j: nat :: FirstNs(m.authority, j) && Lower(m.authority[j].name) == owner
  }

  lemma ReferralOwner(m: Message, target: string, owner: string)
    requires ReferralTo(m, target, owner)
    ensures NsRecords(m.authority) != [] && Lower(NsRecords(m.authority)[0].name) == owner
  {
    hide NsRecords, Lower;
    var i: nat :| FirstNs(m.authority, i) && Lower(m.authority[i].name) == owner;
    var j := NsRecordsAre(m.authority);
    assert m.authority[i] in m.authority;
  }

  /** A referral to a zone that is not above the target, or not below where the walk stands. */
  lemma ReadsOffPath(setup: Setup, target: string, attempts: nat, level: Level, m: Message, from: string, error: string,
                     owner: string)
    requires ReferralTo(m, target, owner)
    requires !IsSuffix(target, owner) || (owner != target && |owner| <= |level.current| && level.current != ".")
    ensures Read(setup, target, attempts, level, m, from, error) ==
            Done(Outcome(target, NotDelegated, [], map[], [], [from], level.path,
                         Some(from + " referred to " + owner + ", which is not on the path to " + target)))
  {
    hide NsRecords, Lower, NsNames, Distinct, Glue, IsSuffix;
    NotApex(m, target);
    ReferralOwner(m, target, owner);
  }

  /** The names of a referral's NS records, each once and by first occurrence. */
  ghost predicate NsSetReads(m: Message, owner: string, names: seq<string>) {
    (forall n :: n in names <==> exists r :: r in m.authority && NsAt(owner)(r) && NameOf()(r) == n) &&
    (forall i, j :: 0 <= i < j < |names| ==> names[i] != names[j]) &&
    exists all :: IsSelection(m.authority, NsAt(owner), NameOf(), all) && AreFirsts(all, SameText(), names)
  }

  /** The servers a referral leads to. */
  ghost predicate HopOf(setup: Setup, m: Message, owner: string, servers: seq<string>) {
    exists names, parts :: IsHop(setup, m, owner, names, parts) && servers == Flat(parts)
  }

  ghost predicate IsHop(setup: Setup, m: Message, owner: string, names: seq<string>, parts: seq<seq<string>>) {
    NsSetReads(m, owner, names) && |parts| == |names| &&
    forall i :: 0 <= i < |parts| ==> ReachedBy(setup, m.additional, names[i], parts[i])
  }

  lemma ReferralNames(m: Message, owner: string)
    ensures NsSetReads(m, owner, Distinct(NsNames(NsRecords(m.authority), owner)))
  {
    SameNames(m.authority, owner);
    NsNamesIs(m.authority, owner);
    DistinctIs(NsNames(m.authority, owner));
    SelectionMembers(m.authority, NsAt(owner), NameOf(), NsNames(m.authority, owner));
    hide NsNames, NsRecords, Distinct, IsSelection, AreFirsts;
  }

  /** A referral to the target itself: the parent's view of it. */
  lemma ReadsCut(setup: Setup, target: string, attempts: nat, level: Level, m: Message, from: string, error: string)
    requires ReferralTo(m, target, target)
    ensures var v := Read(setup, target, attempts, level, m, from, error);
            v.Done? && v.outcome.zone == target && v.outcome.path == level.path && v.outcome.error == None &&
            v.outcome.status == Delegated && NsSetReads(m, target, v.outcome.nameservers) &&
            GlueReads(m, v.outcome.glue) &&
            (if exists r :: r in m.authority && DsAt(target)(r)
             then IsSelection(m.authority, DsAt(target), DsOf(), v.outcome.ds)
             else DsReads(setup, target, from, v.outcome.ds)) &&
            v.outcome.parentServers == level.servers[..if |level.servers| < attempts then |level.servers| else attempts]
  {
    hide NsRecords, Lower, NsNames, Distinct, Glue, ReadDs, IsSelection, GlueReads, DsReads, NsSetReads, DsRecords;
    NotApex(m, target);
    ReferralOwner(m, target, target);
    ReferralNames(m, target);
    GlueIsRead(m);
    ReadDsIs(setup, target, from);
    DsRecordsIs(m.authority, target);
    SelectionEmptyIff(m.authority, DsAt(target), DsOf(), DsRecords(m.authority, target));
  }

  /** A referral further down: the walk goes on with the servers of that zone, if any. */
  lemma ReadsReferral(setup: Setup, target: string, attempts: nat, level: Level, m: Message, from: string,
                      error: string, owner: string) returns (servers: seq<string>)
    requires ReferralTo(m, target, owner) && owner != target
    requires IsSuffix(target, owner) && (|owner| > |level.current| || level.current == ".")
    ensures HopOf(setup, m, owner, servers)
    ensures Read(setup, target, attempts, level, m, from, error) ==
            if servers == []
            then Done(Outcome(target, Unreachable, [], map[], [], [from], level.path,
                              Some("no address for the nameservers of " + owner)))
            else Descend(Level(servers, owner, level.path + [owner], error))
  {
    hide NsRecords, Lower, NsNames, Distinct, Glue, NextServers, NsSetReads, ReachedBy, Flat, IsSuffix;
    NotApex(m, target);
    ReferralOwner(m, target, owner);
    ReferralNames(m, owner);
    var names := Distinct(NsNames(NsRecords(m.authority), owner));
    var parts := NextServersAre(setup, m.additional, names);
    servers := Flat(parts);
    assert IsHop(setup, m, owner, names, parts);
  }

  /* -------------------------------------------------------------- the walk */

  /** Each level is where the one before it leads. */
  predicate Follow(setup: Setup, target: string, attempts: nat, levels: seq<Level>) {
    forall i :: 0 <= i < |levels| - 1 ==> Visit(setup, target, attempts, levels[i]) == Descend(levels[i + 1])
  }

  /** The walk goes from level to level until one of them ends it, or the levels run out. */
  lemma {:induction false} WalkIs(setup: Setup, target: string, attempts: nat, level: Level, depth: nat)
    returns (levels: seq<Level>)
    ensures 1 <= |levels| <= depth + 1 && levels[0] == level && Follow(setup, target, attempts, levels)
    ensures var r, last := Walk(setup, target, attempts, level, depth), levels[|levels| - 1];
            if |levels| == depth + 1
            then r == Outcome(target, Unreachable, [], map[], [], [], last.path, Some("delegation chain too deep"))
            else Visit(setup, target, attempts, last) == Done(r)
    decreases depth
  {
    hide Visit;
    levels := [level];
    if depth > 0 && Visit(setup, target, attempts, level).Descend? {
      var next := Visit(setup, target, attempts, level).level;
      var rest := WalkIs(setup, target, attempts, next, depth - 1);
      levels := [level] + rest;
      forall i | 0 <= i < |levels| - 1
        ensures Visit(setup, target, attempts, levels[i]) == Descend(levels[i + 1])
      {
        if i > 0 { assert levels[i] == rest[i - 1] && levels[i + 1] == rest[i]; }
      }
    }
  }

  /** The whole walk: for the zone in lower case with its final dot, from the root servers,
      four servers a level and one level a label and two more unless told otherwise. */
  lemma LocatedIs(zone: string, setup: Setup)
    ensures var target := Lower(if zone != "" && zone[|zone| - 1] == '.' then zone else zone + ".");
            var attempts := if setup.attemptsPerLevel.Some? then setup.attemptsPerLevel.value else 4;
            var depth := if setup.maxDepth.Some? then setup.maxDepth.value else Dots(target) + 2;
            Located(zone, setup) == Walk(setup, target, attempts, Level(setup.rootServers, ".", ["."], ""), depth)
  {
    hide Lower, Walk;
    SplitCount(TargetOf(zone));
    if zone != "" { assert zone[|zone| - 1..] == [zone[|zone| - 1]]; }
  }
}
