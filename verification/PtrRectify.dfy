/** Where a reverse-DNS fix lands. The reconciler picks a row's zone among those hosted on
    the row's side of the horizon, the rectify route among all hosted ones; the review is
    what happens exactly when the two agree. */
module PtrRectify {
  import opened Options
  import opened Text
  import opened ReverseName
  import opened ReverseZoneLaws
  import opened PtrReconcile
  import A = AutoPtr
  import P = PtrReview

  /** The hosted reverse zones, and how the route prefers backends. */
  datatype Fleet = Fleet(hosted: seq<HostedZone>, forwardServer: string, clusterOf: string -> Option<string>)

  /** PTR RRsets of every hosted copy. */
  type Store = map<Place, A.RRset>

  function ZoneNames(hosted: seq<HostedZone>): (r: seq<string>)
    ensures |r| == |hosted| && forall i :: 0 <= i < |r| ==> r[i] == hosted[i].name
  {
    seq(|hosted|, i requires 0 <= i < |hosted| => hosted[i].name)
  }

  predicate IsWritableCopy(h: HostedZone, zone: string) {
    h.writable && CanonicalZone(h.name) == zone
  }

  /** `hosts.find(p)` among the writable copies of a zone. */
  function FirstHost(hosted: seq<HostedZone>, zone: string, p: string -> bool): (r: Option<string>)
    ensures r.Some? ==> exists h :: h in hosted && IsWritableCopy(h, zone) && h.server == r.value && p(r.value)
    ensures r.None? ==> forall h :: h in hosted && IsWritableCopy(h, zone) ==> !p(h.server)
  {
    hide IsWritableCopy;
    if hosted == [] then None
    else if IsWritableCopy(hosted[0], zone) && p(hosted[0].server) then Some(hosted[0].server)
    else FirstHost(hosted[1..], zone, p)
  }

  /** The forward backend, then one of its cluster, then any writable copy. */
  function ChooseHost(fleet: Fleet, zone: string): Option<string> {
    var cluster := fleet.clusterOf(fleet.forwardServer);
    var own := FirstHost(fleet.hosted, zone, (s: string) => s == fleet.forwardServer);
    var near := FirstHost(fleet.hosted, zone, (s: string) => cluster.Some? && fleet.clusterOf(s) == cluster);
    if own.Some? then own else if near.Some? then near
    else FirstHost(fleet.hosted, zone, (s: string) => true)
  }

  /** Where the route writes the PTR of an address, if anywhere. */
  function Landing(fleet: Fleet, ip: string): Option<Place> {
    var m := FindReverseZone(ip, ZoneNames(fleet.hosted));
    if m.None? then None
    else
      var host := ChooseHost(fleet, m.value.zone);
      if host.None? then None else Some(Place(host.value, m.value.zone, m.value.owner))
  }

  function At(store: Store, p: Place): Option<A.RRset> {
    if p in store then Some(store[p]) else None
  }

  /** What the planner leaves at a place, given what is read there. */
  function Planned(fleet: Fleet, p: Place, ip: string, item: P.ReviewInput, read: Store): Option<A.RRset> {
    var w: A.World := if p in read then map[p.owner := read[p]] else map[];
    A.Get(A.After(P.FixJob(ip, item, ZoneNames(fleet.hosted)), w), p.owner)
  }

  function PutAt(store: Store, p: Place, r: Option<A.RRset>): Store {
    if r.Some? then store[p := r.value] else store - {p}
  }

  /** The route run for one item: read at the landing place, plan, apply. */
  function Rectify(fleet: Fleet, ip: string, item: P.ReviewInput, store: Store): Store {
    var landing := Landing(fleet, ip);
    if landing.None? then store
    else PutAt(store, landing.value, Planned(fleet, landing.value, ip, item, store))
  }

  /** A stored RRset as the review shows it. */
  function View(owner: string, r: Option<A.RRset>): Option<P.ReviewRRset> {
    if r.None? || r.value.records == [] then None
    else Some(P.MakeRRset(owner, r.value.ttl, A.Targets(r.value.records)))
  }

  /** The review of the item is about this place and shows what is stored there. */
  ghost predicate Shown(item: P.ReviewInput, p: Place, store: Store) {
    item.reverseZone == Some(p.zone) && item.owner == p.owner && P.Stored(item.currentTargets) &&
    match At(store, p)
    case None => item.currentTargets == []
    case Some(r) =>
      r.records != [] && item.currentTargets == A.Targets(r.records) && item.currentTtl == Some(r.ttl)
  }

  /** The fix does at the place what the review shows, and nothing anywhere else. */
  ghost predicate Lands(fleet: Fleet, ip: string, item: P.ReviewInput, p: Place, store: Store) {
    var after := Rectify(fleet, ip, item, store);
    View(p.owner, At(after, p)) == P.AfterOf(item) && forall q :: q != p ==> At(after, q) == At(store, q)
  }

  /* -------------------------------------------------- which host is written */

  predicate IsChoice(h: HostedZone, zone: string, p: string -> bool) {
    h.writable && CanonicalZone(h.name) == zone && p(h.server)
  }

  ghost predicate IsFirstChoice(hosted: seq<HostedZone>, zone: string, p: string -> bool, r: Option<string>) {
    if exists h :: h in hosted && IsChoice(h, zone, p)
    then exists j :: 0 <= j < |hosted| && r == Some(hosted[j].server) && IsChoice(hosted[j], zone, p) &&
                     forall i :: 0 <= i < j ==> !IsChoice(hosted[i], zone, p)
    else r == None
  }

  lemma {:induction false} FirstHostAt(hosted: seq<HostedZone>, zone: string, p: string -> bool) returns (j: nat)
    ensures var r := FirstHost(hosted, zone, p);
            r.Some? ==> j < |hosted| && r.value == hosted[j].server && IsChoice(hosted[j], zone, p) &&
                        forall i :: 0 <= i < j ==> !IsChoice(hosted[i], zone, p)
  {
    hide CanonicalZone;
    j := 0;
    if hosted != [] && !IsChoice(hosted[0], zone, p) {
      j := FirstHostAt(hosted[1..], zone, p);
      if FirstHost(hosted[1..], zone, p).Some? { j := j + 1; }
    }
  }

  lemma FirstHostIs(hosted: seq<HostedZone>, zone: string, p: string -> bool)
    ensures IsFirstChoice(hosted, zone, p, FirstHost(hosted, zone, p))
  {
    hide CanonicalZone;
    var j := FirstHostAt(hosted, zone, p);
    if FirstHost(hosted, zone, p).Some? { assert hosted[j] in hosted; }
  }

  /** A writable copy on the forward backend, else the first on its cluster, else the first. */
  lemma ChooseHostIs(fleet: Fleet, zone: string) returns (near: Option<string>)
    ensures var r, cluster := ChooseHost(fleet, zone), fleet.clusterOf(fleet.forwardServer);
            if exists h :: h in fleet.hosted && h.writable && CanonicalZone(h.name) == zone &&
                           h.server == fleet.forwardServer
            then r == Some(fleet.forwardServer)
            else IsFirstChoice(fleet.hosted, zone, s => cluster.Some? && fleet.clusterOf(s) == cluster, near) &&
                 if near.Some? then r == near else IsFirstChoice(fleet.hosted, zone, s => true, r)
  {
    hide FirstHost, CanonicalZone, IsFirstChoice;
    var cluster := fleet.clusterOf(fleet.forwardServer);
    var own, close, any := (s: string) => s == fleet.forwardServer,
                           (s: string) => cluster.Some? && fleet.clusterOf(s) == cluster, (s: string) => true;
    near := FirstHost(fleet.hosted, zone, close);
    FirstHostIs(fleet.hosted, zone, close);
    FirstHostIs(fleet.hosted, zone, any);
  }

  /* ------------------------------------------------------- at the landing */

  lemma AbsoluteOfLower(c: string, name: string)
    requires Lower(c) == P.Absolute(name)
    ensures P.Absolute(c) == P.Absolute(name)
  {
    P.AbsoluteTwice(name);
    P.AbsoluteTrimmed(name);
    var a := P.Absolute(name);
    hide P.Absolute, Trim, Lower;
    TrimmedByLower(c);
    assert Trim(c) == c;
    P.AbsoluteFixed(c);
  }

  lemma TrimmedByLower(c: string)
    requires Trimmed(Lower(c))
    ensures Trimmed(c)
  {}

  lemma SetLands(fleet: Fleet, ip: string, item: P.ReviewInput, p: Place, store: Store)
    requires item.fix.Set? && Landing(fleet, ip) == Some(p) && item.owner == p.owner
    ensures Lands(fleet, ip, item, p, store)
  {
    hide FindReverseZone, A.After, P.Absolute, Lower, ChooseHost, P.FixJob;
    var w: A.World := if p in store then map[p.owner := store[p]] else map[];
    P.SetIsAsShown(ip, item, ZoneNames(fleet.hosted), w);
    var r := A.Get(A.After(P.FixJob(ip, item, ZoneNames(fleet.hosted)), w), p.owner).value;
    AbsoluteOfLower(r.records[0].content, item.target);
    assert P.AfterOf(item) == Some(P.MakeRRset(item.owner, P.Or(item.ttl), [item.target]));
    assert A.Targets(r.records) == [r.records[0].content];
    assert P.AbsoluteAll([r.records[0].content]) == P.AbsoluteAll([item.target]);
  }

  lemma RemoveLands(fleet: Fleet, ip: string, item: P.ReviewInput, p: Place, store: Store)
    requires item.fix.Remove? && Landing(fleet, ip) == Some(p) && Shown(item, p, store)
    ensures Lands(fleet, ip, item, p, store)
  {
    hide FindReverseZone, A.After, P.Absolute, Lower, ChooseHost, P.FixJob, P.Remaining;
    var w: A.World := if p in store then map[p.owner := store[p]] else map[];
    if p in store {
      P.RemoveIsAsShown(ip, item, ZoneNames(fleet.hosted), w);
      P.AfterName(item);
    } else {
      P.RemoveFromNothing(ip, item, ZoneNames(fleet.hosted), w);
    }
  }

  /** A fix that changes anything does exactly what its review shows, at the zone, owner
      and server shown and nowhere else, exactly when the route lands there. */
  lemma LandsIff(fleet: Fleet, ip: string, item: P.ReviewInput, p: Place, store: Store)
    requires Shown(item, p, store) && P.BeforeOf(item) != P.AfterOf(item)
    ensures Lands(fleet, ip, item, p, store) <==> Landing(fleet, ip) == Some(p)
  {
    hide Landing, A.After, P.Absolute, P.AfterOf, P.FixJob;
    if Landing(fleet, ip) == Some(p) {
      if item.fix.Set? { SetLands(fleet, ip, item, p, store); } else { RemoveLands(fleet, ip, item, p, store); }
    } else {
      assert At(Rectify(fleet, ip, item, store), p) == At(store, p);
      assert View(p.owner, At(store, p)) == P.BeforeOf(item);
    }
  }

  /* ------------------------------------------------- one side of the horizon */

  /** All hosted zones on one side, canonically named, one server a name. */
  ghost predicate OneSided(hosted: seq<HostedZone>, horizon: Horizon) {
    (forall h :: h in hosted ==> h.horizon == horizon && CanonicalZone(h.name) == h.name) &&
    (forall a, b :: a in hosted && b in hosted && a.name == b.name ==> a.server == b.server)
  }

  lemma {:induction false} SameHosted(hosted: seq<HostedZone>, horizon: Horizon)
    requires forall h :: h in hosted ==> h.horizon == horizon
    ensures Hosted(HostedByHorizon(hosted, horizon)) == Hosted(ZoneNames(hosted))
  {
    hide CanonicalZone;
    if hosted != [] {
      var n := |hosted| - 1;
      var init, h := hosted[..n], hosted[n];
      assert hosted == init + [h];
      SameHosted(init, horizon);
      assert ZoneNames(hosted)[..n] == ZoneNames(init);
      var side := HostedByHorizon(init, horizon);
      if h.name in side {
        HostedMember(side, CanonicalZone(h.name));
      } else {
        assert (side + [h.name])[..|side|] == side;
      }
    }
  }

  /** Without a split horizon an address lands in the zone, at the owner and on the server
      the reconciler finds for it, when that copy is writable. */
  lemma OneSideLands(fleet: Fleet, horizon: Horizon, ip: string)
    requires OneSided(fleet.hosted, horizon)
    requires FindReverseZone(ip, HostedByHorizon(fleet.hosted, horizon)).Some?
    ensures var m := FindReverseZone(ip, HostedByHorizon(fleet.hosted, horizon)).value;
            var host := HostOf(m.zone, fleet.hosted, horizon);
            host.Some? && host.value.writable ==> Landing(fleet, ip) == Some(Place(host.value.server, m.zone, m.owner))
  {
    hide *;
    SameMatches(fleet.hosted, horizon, ip);
    var m := FindReverseZone(ip, HostedByHorizon(fleet.hosted, horizon)).value;
    var host := HostOf(m.zone, fleet.hosted, horizon);
    if host.Some? && host.value.writable {
      OnlyHost(fleet, horizon, m.zone, host.value);
      LandingIs(fleet, ip, m, host.value.server);
    }
  }

  lemma SameMatches(hosted: seq<HostedZone>, horizon: Horizon, ip: string)
    requires OneSided(hosted, horizon)
    ensures FindReverseZone(ip, ZoneNames(hosted)) == FindReverseZone(ip, HostedByHorizon(hosted, horizon))
  {
    hide CanonicalZone, Hosted, MatchFor, ParseIp;
    SameHosted(hosted, horizon);
  }

  lemma LandingIs(fleet: Fleet, ip: string, m: ReverseZoneMatch, server: string)
    requires FindReverseZone(ip, ZoneNames(fleet.hosted)) == Some(m) && ChooseHost(fleet, m.zone) == Some(server)
    ensures Landing(fleet, ip) == Some(Place(server, m.zone, m.owner))
  {
    hide FindReverseZone, ChooseHost;
  }

  lemma OnlyHost(fleet: Fleet, horizon: Horizon, zone: string, host: HostedZone)
    requires OneSided(fleet.hosted, horizon) && HostOf(zone, fleet.hosted, horizon) == Some(host) && host.writable
    ensures ChooseHost(fleet, zone) == Some(host.server)
  {
    hide CanonicalZone, HostOf;
    assert IsWritableCopy(host, zone);
  }

  /* ---------------------------------------------------- and a split horizon */

  /** Two hosted zones on two sides of the horizon: the /16 inside, the /24 outside. */
  function SplitZones(o: seq<nat>): seq<HostedZone>
    requires ValidOctets(o)
  {
    [HostedZone(ZoneAbove(o, 2), "inside", true, Internal), HostedZone(ZoneAbove(o, 1), "outside", true, Public)]
  }

  /** For any IPv4 address of those zones, the row inside shows the /16 on its server while
      the fix lands in the /24 outside. */
  lemma SplitHorizonLandsElsewhere(o: seq<nat>, forwardServer: string, clusterOf: string -> Option<string>)
    requires ValidOctets(o)
    ensures var hosted, ip, owner := SplitZones(o), Quad(o).canonical, OwnerOf(Quad(o));
            FindReverseZone(ip, HostedByHorizon(hosted, Internal)) ==
              Some(ReverseZoneMatch(ZoneAbove(o, 2), owner, false)) &&
            HostOf(ZoneAbove(o, 2), hosted, Internal) == Some(hosted[0]) &&
            Landing(Fleet(hosted, forwardServer, clusterOf), ip) == Some(Place("outside", ZoneAbove(o, 1), owner))
  {
    hide *;
    var hosted, ip := SplitZones(o), Quad(o).canonical;
    var wide, near := ZoneAbove(o, 2), ZoneAbove(o, 1);
    var fleet := Fleet(hosted, forwardServer, clusterOf);
    QuadIsParsed(o);
    SplitNames(o);
    AboveLength(o);
    AboveCanonical(o, 1);
    AboveCanonical(o, 2);
    AboveSuffix(o, 1);
    AboveSuffix(o, 2);
    AboveNotClassless(o, 1);
    AboveNotClassless(o, 2);
    FindLongest(ip, [wide], wide);
    FindLongest(ip, [wide, near], near);
    NearHost(fleet, wide, near);
    LandingIs(fleet, ip, ReverseZoneMatch(near, OwnerOf(Quad(o)), false), "outside");
  }

  lemma SplitNames(o: seq<nat>)
    requires ValidOctets(o)
    ensures var hosted := SplitZones(o);
            hosted == [HostedZone(ZoneAbove(o, 2), "inside", true, Internal),
                       HostedZone(ZoneAbove(o, 1), "outside", true, Public)] &&
            ZoneNames(hosted) == [ZoneAbove(o, 2), ZoneAbove(o, 1)] &&
            HostedByHorizon(hosted, Internal) == [ZoneAbove(o, 2)]
  {
    hide ZoneAbove;
    var hosted := SplitZones(o);
    var one := hosted[..1];
    assert one == [hosted[0]] && |one[..0]| == 0;
    assert HostedByHorizon(one, Internal) == [hosted[0].name];
  }

  lemma NearHost(fleet: Fleet, wide: string, near: string)
    requires |wide| < |near| && CanonicalZone(wide) == wide && CanonicalZone(near) == near
    requires fleet.hosted == [HostedZone(wide, "inside", true, Internal), HostedZone(near, "outside", true, Public)]
    ensures ChooseHost(fleet, near) == Some("outside") && HostOf(wide, fleet.hosted, Internal) == Some(fleet.hosted[0])
  {
    hide CanonicalZone;
    assert IsWritableCopy(fleet.hosted[1], near) && !IsWritableCopy(fleet.hosted[0], near);
  }
}
