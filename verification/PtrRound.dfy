/** The page's round sent through the rectify route. Each item lands where the route
    finds its address among all hosted zones, which need not be where the row was read;
    the next scan is settled exactly when the page's items suffice and all of them land. */
module PtrRound {
  import opened Options
  import opened Text
  import opened ReverseName
  import opened AddressText
  import opened ReverseZoneLaws
  import opened PtrReconcile
  import opened PtrConvergence
  import opened PtrPage
  import opened PtrRectify
  import A = AutoPtr
  import P = PtrReview

  /** One request: everything is read before anything is written. */
  function Sends(fleet: Fleet, rows: seq<Row>, ttlOf: Row -> Option<int>, read: Store): Store {
    if rows == [] then read
    else
      var init, row := Sends(fleet, rows[..|rows| - 1], ttlOf, read), rows[|rows| - 1];
      if !Sent(row) || Landing(fleet, row.ip).None? then init
      else
        var p := Landing(fleet, row.ip).value;
        PutAt(init, p, Planned(fleet, p, row.ip, PageItem(row, ttlOf), read))
  }

  /** The records are what a scan of the copies reads: absolute names, every RRset once. */
  ghost predicate Scanned(reverse: seq<Reverse>, store: Store) {
    AsRead(reverse) && (forall r :: r in reverse ==> P.Stored(r.targets)) &&
    (forall p :: Reads(Lookup(reverse, p), At(store, p)))
  }

  predicate Reads(r: Option<Reverse>, rr: Option<A.RRset>) {
    match rr
    case None => r.None?
    case Some(s) => r.Some? && r.value.targets == A.Targets(s.records) && r.value.ttl == s.ttl
  }

  /* -------------------------------------------------- where the items land */

  lemma {:induction false} SendsElsewhere(fleet: Fleet, rows: seq<Row>, ttlOf: Row -> Option<int>, read: Store,
                                          q: Place)
    requires forall x :: x in rows && Sent(x) ==> Landing(fleet, x.ip) != Some(q)
    ensures At(Sends(fleet, rows, ttlOf, read), q) == At(read, q)
  {
    hide Sent, Landing, Planned;
    if rows != [] { SendsElsewhere(fleet, rows[..|rows| - 1], ttlOf, read, q); }
  }

  lemma {:induction false} SendsAt(fleet: Fleet, rows: seq<Row>, ttlOf: Row -> Option<int>, read: Store, row: Row,
                                   q: Place)
    requires row in rows && Sent(row) && Landing(fleet, row.ip) == Some(q)
    requires forall x :: x in rows && Sent(x) && Landing(fleet, x.ip) == Some(q) ==> x == row
    ensures At(Sends(fleet, rows, ttlOf, read), q) == Planned(fleet, q, row.ip, PageItem(row, ttlOf), read)
  {
    hide Sent, Landing, Planned;
    var n := |rows| - 1;
    if rows[n] != row {
      assert rows == rows[..n] + [rows[n]];
      SendsAt(fleet, rows[..n], ttlOf, read, row, q);
    }
  }

  /** Every row of these that is sent lands at its own place. */
  ghost predicate SentLand(fleet: Fleet, rows: seq<Row>) {
    forall x :: x in rows && Sent(x) ==> Landing(fleet, x.ip) == Some(RowPlace(x))
  }

  ghost predicate AllLand(fleet: Fleet, input: Input) {
    forall x :: x in Rows(input) && IsFix(x) ==> Landing(fleet, x.ip) == Some(RowPlace(x))
  }

  /* ------------------------------------------ the route and the page's round */

  function ReverseView(p: Place, r: Option<Reverse>): Option<P.ReviewRRset> {
    if r.None? || r.value.targets == [] then None else Some(P.MakeRRset(p.owner, r.value.ttl, r.value.targets))
  }

  /** The reconciler's records are what the copies store. */
  ghost predicate Mirrors(reverse: seq<Reverse>, store: Store) {
    forall p :: ReverseView(p, Lookup(reverse, p)) == View(p.owner, At(store, p))
  }

  lemma ScannedMirrors(reverse: seq<Reverse>, store: Store)
    requires Scanned(reverse, store)
    ensures Mirrors(reverse, store)
  {
    hide Lookup, P.MakeRRset;
    forall p ensures ReverseView(p, Lookup(reverse, p)) == View(p.owner, At(store, p)) {
      assert Reads(Lookup(reverse, p), At(store, p));
    }
  }

  lemma LeftIsAfter(row: Row, ttlOf: Row -> Option<int>)
    requires Sent(row) && Lower(row.owner) == row.owner
    ensures ReverseView(RowPlace(row), Left(row, ttlOf)) == P.AfterOf(PageItem(row, ttlOf))
  {
    hide P.Absolute, Lower, P.Remaining;
    var item := PageItem(row, ttlOf);
    var rr := P.AfterOf(item);
    if rr.Some? {
      var t := if IsSet(row) then [item.target] else P.Remaining(item.currentTargets, P.Absolute(item.target));
      forall i | 0 <= i < |t| ensures P.Absolute(P.Absolute(t[i])) == P.Absolute(t[i]) { P.AbsoluteTwice(t[i]); }
      assert rr.value.records == P.AbsoluteAll(t);
      assert P.AbsoluteAll(rr.value.records) == rr.value.records;
    }
  }

  /** What the item leaves at the row's place is what the planner writes there. */
  lemma ItemLands(fleet: Fleet, row: Row, ttlOf: Row -> Option<int>, store: Store)
    requires Sent(row) && Lower(row.owner) == row.owner && Landing(fleet, row.ip) == Some(RowPlace(row))
    requires row.status.Orphan? ==> Shown(RemoveItem(row), RowPlace(row), store)
    ensures var p := RowPlace(row);
            ReverseView(p, Left(row, ttlOf)) ==
            View(p.owner, Planned(fleet, p, row.ip, PageItem(row, ttlOf), store))
  {
    hide Landing, Planned, P.Absolute, P.AfterOf, Lower, Shown, Left;
    var item, p := PageItem(row, ttlOf), RowPlace(row);
    LeftIsAfter(row, ttlOf);
    if IsSet(row) { SetLands(fleet, row.ip, item, p, store); } else { RemoveLands(fleet, row.ip, item, p, store); }
  }

  /** What a request may assume of the rows it is made from. */
  ghost predicate Sendable(rows: seq<Row>, store: Store) {
    (forall x :: x in rows && Sent(x) ==>
       Lower(x.owner) == x.owner && (x.status.Orphan? ==> Shown(RemoveItem(x), RowPlace(x), store))) &&
    (forall x, y :: x in rows && y in rows && Sent(x) && Sent(y) && RowPlace(x) == RowPlace(y) ==> x == y)
  }

  /** When every item lands at its row's place, the request does to the stored RRsets what
      the page's fixes do to the reconciler's records. */
  lemma RouteIsPage(fleet: Fleet, reverse: seq<Reverse>, rows: seq<Row>, ttlOf: Row -> Option<int>, store: Store)
    requires Mirrors(reverse, store) && Sendable(rows, store) && SentLand(fleet, rows)
    ensures Mirrors(PageFixes(reverse, rows, ttlOf), Sends(fleet, rows, ttlOf, store))
  {
    hide Lookup, At, Landing, RowPlace, IsFix, PageFixes, Sends, View, ReverseView, Shown, Left, Planned, Lower;
    var fixes, after := PageFixes(reverse, rows, ttlOf), Sends(fleet, rows, ttlOf, store);
    forall q ensures ReverseView(q, Lookup(fixes, q)) == View(q.owner, At(after, q)) {
      if x :| x in rows && Sent(x) && RowPlace(x) == q {
        PageAt(reverse, rows, ttlOf, x);
        SendsAt(fleet, rows, ttlOf, store, x, q);
        ItemLands(fleet, x, ttlOf, store);
      } else {
        PageElsewhere(reverse, rows, ttlOf, q);
        SendsElsewhere(fleet, rows, ttlOf, store, q);
      }
    }
  }

  /* ----------------------------------------------------- facts about the rows */

  /** A fix row's owner is in lower case, and its zone and server are a hosted copy. */
  lemma FixRow(input: Input, x: Row) returns (h: HostedZone)
    requires Orderly(input) && AsRead(input.reverse) && x in Rows(input) && IsFix(x)
    ensures Lower(x.owner) == x.owner && h in input.hosted
    ensures h.name == x.reverseZone.value && h.server == x.reverseServer.value && h.horizon == x.horizon
  {
    hide Rows, OrphanRowOf, GroupRow, IsOrphan, Grouped, Claims, Lower, FindReverseZone, HostedByHorizon, HostOf;
    var orphan, i, r := RowSource(input, x);
    var groups := Grouped(input.forward);
    if orphan {
      OrphanHasIp(r, Claims(input, groups));
      OrphanRowShape(input, r);
      OrphanFields(input, r);
      h :| h in input.hosted && IsCopyOf(h, r);
    } else {
      var (key, g) := groups[i];
      GroupFix(input, i);
      GroupRowFields(input, key, g);
      OwnerIsLower(g.ip, HostedByHorizon(input.hosted, key.horizon));
      h := GroupHost(input, key.horizon, g.ip).value;
    }
  }

  lemma OrphanShown(input: Input, x: Row, store: Store)
    requires Orderly(input) && Scanned(input.reverse, store) && x in Rows(input) && Sent(x) && x.status.Orphan?
    ensures Shown(RemoveItem(x), RowPlace(x), store)
  {
    hide Rows, OrphanRowOf, GroupRow, IsOrphan, Grouped, Claims, Lower, Lookup, P.Stored, FindReverseZone;
    var orphan, i, r := RowSource(input, x);
    if orphan {
      OrphanHasIp(r, Claims(input, Grouped(input.forward)));
      OrphanRowShape(input, r);
      OrphanFields(input, r);
      OrphanTtl(input, r);
      LookupOf(input.reverse, r);
      assert Reads(Lookup(input.reverse, PlaceOf(r)), At(store, PlaceOf(r)));
    } else {
      GroupFix(input, i);
    }
  }

  lemma OrphanTtl(input: Input, r: Reverse)
    requires IpFromReverseOwner(r.owner).Some?
    ensures OrphanRowOf(input, r).currentTtl == Some(r.ttl)
  {
    hide IpFromReverseOwner, ParseIp, HostOf, Lower;
  }

  lemma RowsSendable(input: Input, store: Store)
    requires Orderly(input) && Scanned(input.reverse, store)
    ensures Sendable(Rows(input), store)
  {
    hide Rows, Orderly, AsRead, Lookup, Shown, RowPlace, Lower, IsFix;
    var rows := Rows(input);
    forall x | x in rows && Sent(x)
      ensures Lower(x.owner) == x.owner && (x.status.Orphan? ==> Shown(RemoveItem(x), RowPlace(x), store))
    {
      var h := FixRow(input, x);
      if x.status.Orphan? { OrphanShown(input, x, store); }
    }
    forall x, y | x in rows && y in rows && Sent(x) && Sent(y) && RowPlace(x) == RowPlace(y) ensures x == y {
      FixPlacesDiffer(input, x, y);
    }
  }

  /* ------------------------------------------------------ two scans compared */

  lemma SameHorizon(a: Input, b: Input, r: Reverse, s: Reverse)
    requires Orderly(a) && Orderly(b) && a.hosted == b.hosted && r in a.reverse && s in b.reverse
    requires PlaceOf(r) == PlaceOf(s)
    ensures r.horizon == s.horizon
  {
    var g :| g in a.hosted && IsCopyOf(g, r);
    var h :| h in b.hosted && IsCopyOf(h, s);
  }

  ghost predicate Tidy(input: Input) {
    Orderly(input) && AsRead(input.reverse) && forall r :: r in input.reverse ==> P.Stored(r.targets)
  }

  ghost predicate SameViews(a: Input, b: Input) {
    b == a.(reverse := b.reverse) &&
    forall q :: ReverseView(q, Lookup(a.reverse, q)) == ReverseView(q, Lookup(b.reverse, q))
  }

  /** Records that look the same are settled alike. */
  lemma SameViewsQuiet(a: Input, b: Input)
    requires Tidy(a) && Tidy(b) && SameViews(a, b) && AllQuiet(a)
    ensures AllQuiet(b)
  {
    hide Rows, Orderly, AsRead, Lookup, P.Stored, Grouped, Claims, IsOrphan, OrphanRowOf, GroupRow, Lower, PlaceOf,
         ReverseView;
    forall row | row in Rows(b) ensures Quiet(row) {
      var orphan, i, r := RowSource(b, row);
      if orphan {
        OrphanSeen(a, b, r);
      } else {
        var (key, g) := Grouped(b.forward)[i];
        GroupRowIn(a, i);
        SameStatus(a, b, key, g);
      }
    }
  }

  lemma OrphanSeen(a: Input, b: Input, r: Reverse)
    requires Tidy(a) && Tidy(b) && SameViews(a, b)
    requires r in b.reverse && IsOrphan(r, Claims(b, Grouped(b.forward)))
    ensures !AllQuiet(a)
  {
    hide Orderly, Lookup, P.Stored, Grouped, Claims, IsOrphan, Lower, PlaceOf, AllQuiet, P.MakeRRset;
    var q := PlaceOf(r);
    OrphanHasIp(r, Claims(b, Grouped(b.forward)));
    LookupOf(b.reverse, r);
    assert ReverseView(q, Lookup(a.reverse, q)) == ReverseView(q, Lookup(b.reverse, q));
    LookupMember(a.reverse, q);
    var s := Lookup(a.reverse, q).value;
    SameHorizon(a, b, s, r);
    SameClaims(a, b, Grouped(a.forward));
    SamePlaceOrphan(r, s, Claims(a, Grouped(a.forward)));
    OrphanLeft(a, a, s);
  }

  lemma SameStatus(a: Input, b: Input, key: GroupKey, g: Group)
    requires Tidy(a) && Tidy(b) && SameViews(a, b)
    ensures GroupRow(a, key, g).status == GroupRow(b, key, g).status
  {
    hide Orderly, AsRead, Lookup, Names, FindReverseZone, HostedByHorizon, HostOf, Lower, Decide, ReverseView, PlaceOf,
         GroupRow, LowerAll, P.Stored;
    GroupRowFields(a, key, g);
    GroupRowFields(b, key, g);
    var m, host := GroupMatch(a, key.horizon, g.ip), GroupHost(a, key.horizon, g.ip);
    if m.Some? && host.Some? {
      var q := Place(host.value.server, m.value.zone, Lower(m.value.owner));
      assert ReverseView(q, Lookup(a.reverse, q)) == ReverseView(q, Lookup(b.reverse, q));
      LookupMember(a.reverse, q);
      LookupMember(b.reverse, q);
      SameTargets(q, Lookup(a.reverse, q), Lookup(b.reverse, q));
    }
  }

  lemma SameTargets(q: Place, r: Option<Reverse>, s: Option<Reverse>)
    requires ReverseView(q, r) == ReverseView(q, s)
    requires (r.Some? ==> P.Stored(r.value.targets)) && (s.Some? ==> P.Stored(s.value.targets))
    ensures LowerAll(TargetsOf(r)) == LowerAll(TargetsOf(s))
  {
    hide P.Absolute, Lower;
    var t, u := TargetsOf(r), TargetsOf(s);
    if t != [] && u != [] {
      assert P.AbsoluteAll(t) == P.AbsoluteAll(u);
      forall i | 0 <= i < |t| ensures Lower(t[i]) == Lower(u[i]) {
        assert P.AbsoluteAll(t)[i] == P.AbsoluteAll(u)[i];
      }
    }
  }

  /* --------------------------------------------- the page's round is tidy too */

  lemma PageTidy(input: Input, ttlOf: Row -> Option<int>)
    requires Tidy(input)
    ensures Tidy(PageRound(input, ttlOf))
  {
    hide Rows, Orderly, Lookup, PlaceOf, Lower, P.Stored, PageFixes;
    var page := PageRound(input, ttlOf);
    forall r | r in page.reverse
      ensures Lower(r.owner) == r.owner && P.Stored(r.targets) && Lookup(page.reverse, PlaceOf(r)) == Some(r)
      ensures HasCopy(input, r)
    {
      PageRecord(input, ttlOf, r);
    }
    PageOrderly(input, page);
  }

  ghost predicate HasCopy(input: Input, r: Reverse) {
    exists h :: h in input.hosted && IsCopyOf(h, r)
  }

  lemma PageOrderly(input: Input, page: Input)
    requires Orderly(input) && page == input.(reverse := page.reverse)
    requires forall r :: r in page.reverse ==> HasCopy(input, r)
    ensures Orderly(page)
  {}

  lemma PageRecord(input: Input, ttlOf: Row -> Option<int>, r: Reverse)
    requires Tidy(input) && r in PageRound(input, ttlOf).reverse
    ensures Lower(r.owner) == r.owner && P.Stored(r.targets) && HasCopy(input, r)
    ensures Lookup(PageRound(input, ttlOf).reverse, PlaceOf(r)) == Some(r)
  {
    hide Rows, Lookup, Lower, P.Stored, PageFixes, IsFix, RowPlace, Left, IsSet;
    var rows := Rows(input);
    PageMember(input.reverse, rows, ttlOf, r);
    if r in input.reverse && forall x :: x in rows && Sent(x) ==> RowPlace(x) != PlaceOf(r) {
      PageElsewhere(input.reverse, rows, ttlOf, PlaceOf(r));
      LookupOf(input.reverse, r);
    } else {
      var x :| x in rows && Sent(x) && Left(x, ttlOf) == Some(r);
      var h := FixRow(input, x);
      LeftIs(x, ttlOf);
      LeftCopy(x, ttlOf, h);
      forall y | y in rows && Sent(y) && RowPlace(y) == RowPlace(x) ensures y == x { FixPlacesDiffer(input, y, x); }
      PageAt(input.reverse, rows, ttlOf, x);
    }
  }

  lemma LeftCopy(x: Row, ttlOf: Row -> Option<int>, h: HostedZone)
    requires Sent(x) && Left(x, ttlOf).Some?
    requires h.name == x.reverseZone.value && h.server == x.reverseServer.value && h.horizon == x.horizon
    ensures IsCopyOf(h, Left(x, ttlOf).value)
  {
    hide P.AfterOf;
  }

  /* --------------------------------------------------- a row that lands elsewhere */

  /** Nothing lands at the place of a row whose own fix does not. */
  lemma NothingLands(fleet: Fleet, input: Input, x: Row, y: Row)
    requires Orderly(input) && AsRead(input.reverse) && x in Rows(input) && IsFix(x)
    requires Landing(fleet, x.ip) != Some(RowPlace(x))
    ensures Landing(fleet, y.ip) != Some(RowPlace(x))
  {
    hide Rows, OrphanRowOf, GroupRow, IsOrphan, Grouped, Claims, Lower, FindReverseZone, HostedByHorizon, HostOf,
         ParseIp, IpFromReverseOwner, Orderly, Landing, GroupHost, GroupPlace;
    if Landing(fleet, y.ip) == Some(RowPlace(x)) {
      var h := FixRow(input, x);
      LandingOwner(fleet, y.ip);
      var orphan, i, r := RowSource(input, x);
      if orphan {
        OrphanHasIp(r, Claims(input, Grouped(input.forward)));
        OrphanFields(input, r);
        OwnerDenotes(y.ip, ZoneNames(fleet.hosted), x.ip);
      } else {
        var (key, g) := Grouped(input.forward)[i];
        GroupFix(input, i);
        GroupRowFields(input, key, g);
        GroupRowIp(input, key, g);
        HostHasMatch(input, key, g);
        OwnerDeterminesAddress(y.ip, g.ip, ZoneNames(fleet.hosted), HostedByHorizon(input.hosted, key.horizon));
      }
      SameAddressLands(fleet, x.ip, y.ip);
    }
  }

  lemma LandingOwner(fleet: Fleet, ip: string)
    requires Landing(fleet, ip).Some?
    ensures var m := FindReverseZone(ip, ZoneNames(fleet.hosted));
            m.Some? && m.value.owner == Landing(fleet, ip).value.owner && m.value.zone == Landing(fleet, ip).value.zone
  {
    hide FindReverseZone, ChooseHost;
  }

  lemma OwnerDenotes(ip: string, zones: seq<string>, back: string)
    requires FindReverseZone(ip, zones).Some?
    requires IpFromReverseOwner(FindReverseZone(ip, zones).value.owner) == Some(back)
    ensures ParseIp(back) == ParseIp(ip)
  {
    OwnerLeadsBackIff(ip, zones);
    FoundIsParsed(ip, zones);
    hide FindReverseZone, IpFromReverseOwner, ParseIp, DotsOnlyInTail;
  }

  lemma FoundIsParsed(ip: string, zones: seq<string>)
    requires FindReverseZone(ip, zones).Some?
    ensures ParseIp(ip).Some?
  {
    hide ParseIp, MatchFor, Hosted;
  }

  lemma HostHasMatch(input: Input, key: GroupKey, g: Group)
    requires GroupHost(input, key.horizon, g.ip).Some?
    ensures GroupMatch(input, key.horizon, g.ip).Some?
    ensures GroupMatch(input, key.horizon, g.ip) == FindReverseZone(g.ip, HostedByHorizon(input.hosted, key.horizon))
  {
    hide FindReverseZone, HostedByHorizon, HostOf;
  }

  lemma GroupRowIp(input: Input, key: GroupKey, g: Group)
    ensures GroupRow(input, key, g).ip == g.ip
  {
    hide Names, FindReverseZone, HostedByHorizon, HostOf, Lookup, Lower, Decide;
  }

  lemma SameAddressLands(fleet: Fleet, a: string, b: string)
    requires ParseIp(a) == ParseIp(b)
    ensures Landing(fleet, a) == Landing(fleet, b)
  {
    hide ParseIp, MatchFor, ChooseHost, Hosted;
  }

  /** A place read as before holds the record it held. */
  lemma SameRead(input: Input, next: Input, store: Store, after: Store, q: Place)
    requires Orderly(input) && Orderly(next) && next == input.(reverse := next.reverse)
    requires Scanned(input.reverse, store) && Scanned(next.reverse, after) && At(after, q) == At(store, q)
    ensures Lookup(next.reverse, q) == Lookup(input.reverse, q)
  {
    hide Orderly, Lookup, At;
    LookupMember(input.reverse, q);
    LookupMember(next.reverse, q);
    assert Reads(Lookup(input.reverse, q), At(store, q)) && Reads(Lookup(next.reverse, q), At(after, q));
    if Lookup(input.reverse, q).Some? {
      SameHorizon(input, next, Lookup(input.reverse, q).value, Lookup(next.reverse, q).value);
    }
  }

  /** The next scan after the page's items went through the route has only ok and unhosted
      rows exactly when the items suffice and every row's fix lands at the row's place. */
  lemma RouteRoundSettlesIff(fleet: Fleet, input: Input, next: Input, ttlOf: Row -> Option<int>, store: Store)
    requires Orderly(input) && Scanned(input.reverse, store)
    requires Orderly(next) && next == input.(reverse := next.reverse)
    requires Scanned(next.reverse, Sends(fleet, Rows(input), ttlOf, store))
    ensures AllQuiet(next) <==> PageSettles(input) && AllLand(fleet, input)
  {
    hide Rows, Orderly, AsRead, Lookup, AllQuiet, AllSettle, Landing, RowPlace, IsFix, P.Stored, PageFixes, Sends;
    var rows, after := Rows(input), Sends(fleet, Rows(input), ttlOf, store);
    if SentLand(fleet, rows) {
      var page := PageRound(input, ttlOf);
      PageRoundSettlesIff(input, ttlOf);
      ScannedMirrors(input.reverse, store);
      ScannedMirrors(next.reverse, after);
      RowsSendable(input, store);
      RouteIsPage(fleet, input.reverse, rows, ttlOf, store);
      PageTidy(input, ttlOf);
      MirrorsAlike(page, next, after);
      if AllQuiet(page) { SameViewsQuiet(page, next); }
      if AllQuiet(next) { SameViewsQuiet(next, page); }
      forall x | PageSettles(input) && x in rows && IsFix(x) ensures Landing(fleet, x.ip) == Some(RowPlace(x)) {
        assert Sufficient(x);
        if x.status.Orphan? { OrphanHasTargets(input, x); }
      }
    } else {
      var x :| x in rows && Sent(x) && Landing(fleet, x.ip) != Some(RowPlace(x));
      forall y | y in rows &&
        Sent(y) ensures Landing(fleet, y.ip) != Some(RowPlace(x)) { NothingLands(fleet, input, x, y); }
      SendsElsewhere(fleet, rows, ttlOf, store, RowPlace(x));
      SameRead(input, next, store, after, RowPlace(x));
      UntouchedStays(input, next, x);
    }
  }

  lemma MirrorsAlike(a: Input, b: Input, store: Store)
    requires b == a.(reverse := b.reverse) && Mirrors(a.reverse, store) && Mirrors(b.reverse, store)
    ensures SameViews(a, b) && SameViews(b, a)
  {
    hide Lookup, ReverseView, View;
    forall q ensures ReverseView(q, Lookup(a.reverse, q)) == ReverseView(q, Lookup(b.reverse, q)) {
      assert ReverseView(q, Lookup(a.reverse, q)) == View(q.owner, At(store, q)) == ReverseView(q,
          Lookup(b.reverse, q));
    }
  }

  /* ---------------------------------------------------- there is a next scan */

  /** What copies on these servers may hold: absolute targets at lower-case owners. */
  ghost predicate Servable(hosted: seq<HostedZone>, store: Store) {
    forall p :: p in store ==> ServableAt(hosted, p, store[p])
  }

  ghost predicate ServableAt(hosted: seq<HostedZone>, p: Place, rr: A.RRset) {
    Lower(p.owner) == p.owner && P.Stored(A.Targets(rr.records)) &&
    exists h :: h in hosted && h.name == p.zone && h.server == p.server
  }

  lemma {:induction false} ScanOf(hosted: seq<HostedZone>, store: Store) returns (reverse: seq<Reverse>)
    requires Servable(hosted, store)
    ensures Scanned(reverse, store) && forall r :: r in reverse ==> exists h :: h in hosted && IsCopyOf(h, r)
    decreases |store|
  {
    hide Lookup, Lower, P.Stored;
    reverse := [];
    if store != map[] {
      var p :| p in store;
      var rest := store - {p};
      assert rest.Keys == store.Keys - {p};
      assert forall q :: q in rest ==> q in store && rest[q] == store[q];
      var before := ScanOf(hosted, rest);
      assert ServableAt(hosted, p, store[p]);
      var h :| h in hosted && h.name == p.zone && h.server == p.server;
      var r := Reverse(p.zone, p.server, h.horizon, p.owner, store[p].ttl, A.Targets(store[p].records));
      reverse := before + [r];
      OneMoreRead(before, rest, r, store, p);
      assert IsCopyOf(h, r);
    } else {
      NothingRead();
    }
  }

  lemma NothingRead()
    ensures Scanned([], map[])
  {
    forall p ensures Lookup([], p) == None { LookupMember([], p); }
  }

  lemma OneMoreRead(before: seq<Reverse>, rest: Store, r: Reverse, store: Store, p: Place)
    requires Scanned(before, rest) && p in store && rest == store - {p} && PlaceOf(r) == p && Lower(r.owner) == r.owner
    requires r.targets == A.Targets(store[p].records) && r.ttl == store[p].ttl && P.Stored(r.targets)
    ensures Scanned(before + [r], store)
  {
    hide Lookup, Lower, P.Stored, PlaceOf;
    forall a | a in before ensures PlaceOf(a) != p {
      LookupOf(before, a);
      assert Reads(Lookup(before, PlaceOf(a)), At(rest, PlaceOf(a)));
    }
    forall q ensures Reads(Lookup(before + [r], q), At(store, q)) {
      LookupAppend(before, r, q);
      assert Reads(Lookup(before, q), At(rest, q));
    }
  }

  lemma {:induction false} OthersStored(records: seq<A.AddressRecord>, target: string)
    requires P.Stored(A.Targets(records))
    ensures P.Stored(A.Targets(A.OthersIn(records, target)))
  {
    hide *;
    P.OthersStep(records, target);
    if records == [] {
      NothingStored();
    } else {
      var n := |records| - 1;
      StoredParts(records);
      OthersStored(records[..n], target);
      StoredMore(A.Targets(A.OthersIn(records[..n], target)), records[n].content);
    }
  }

  lemma NothingStored()
    ensures P.Stored([])
  {}

  lemma StoredParts(records: seq<A.AddressRecord>)
    requires records != [] && P.Stored(A.Targets(records))
    ensures P.Stored(A.Targets(records[..|records| - 1]))
    ensures P.Absolute(records[|records| - 1].content) == Lower(records[|records| - 1].content)
  {
    hide P.Absolute, Lower;
    var n, t := |records| - 1, A.Targets(records);
    assert t[n] == records[n].content;
    forall i | 0 <= i < n ensures A.Targets(records[..n])[i] == t[i] {}
  }

  lemma StoredMore(targets: seq<string>, t: string)
    requires P.Stored(targets) && P.Absolute(t) == Lower(t)
    ensures P.Stored(targets + [t])
  {
    hide P.Absolute, Lower;
  }

  /** The planner leaves absolute targets. */
  lemma PlannedStored(fleet: Fleet, p: Place, ip: string, item: P.ReviewInput, read: Store)
    requires Landing(fleet, ip) == Some(p) && (p in read ==> P.Stored(A.Targets(read[p].records)))
    ensures var r := Planned(fleet, p, ip, item, read); r.Some? ==> P.Stored(A.Targets(r.value.records))
  {
    hide FindReverseZone, A.After, P.Absolute, Lower, ChooseHost, A.RemovedAt, A.Effect, P.Stored;
    var w: A.World := if p in read then map[p.owner := read[p]] else map[];
    var names := ZoneNames(fleet.hosted);
    if item.fix.Set? {
      P.SetIsAsShown(ip, item, names, w);
      SetStored(Planned(fleet, p, ip, item, read).value, item.target);
    } else {
      var job, rec := P.FixJob(ip, item, names), A.AddressRecord(ip, false);
      P.OnlyRecord(ip);
      assert rec in A.Removed(job);
      A.AfterAt(job, w, false, rec);
      RemovedStored(rec, FindReverseZone(ip, names).value, A.Get(w, p.owner), A.Target(job));
    }
  }

  lemma SetStored(rr: A.RRset, target: string)
    requires |rr.records| == 1 && Lower(rr.records[0].content) == P.Absolute(target)
    ensures P.Stored(A.Targets(rr.records))
  {
    hide P.Absolute, Lower;
    AbsoluteOfLower(rr.records[0].content, target);
  }

  lemma RemovedStored(rec: A.AddressRecord, m: ReverseZoneMatch, current: Option<A.RRset>, target: string)
    requires current.Some? ==> P.Stored(A.Targets(current.value.records))
    ensures var r := A.Effect(A.RemovedAt(rec, m, current, target), current);
            r.Some? ==> P.Stored(A.Targets(r.value.records))
  {
    hide P.Stored, A.OthersIn;
    if current.Some? { OthersStored(current.value.records, target); }
  }

  lemma LandingServed(fleet: Fleet, ip: string)
    requires Landing(fleet, ip).Some? && forall h :: h in fleet.hosted ==> CanonicalZone(h.name) == h.name
    ensures var p := Landing(fleet, ip).value;
            Lower(p.owner) == p.owner && exists h :: h in fleet.hosted && h.name == p.zone && h.server == p.server
  {
    hide FindReverseZone, CanonicalZone;
    OwnerIsLower(ip, ZoneNames(fleet.hosted));
    var p := Landing(fleet, ip).value;
    var h :| h in fleet.hosted && IsWritableCopy(h, p.zone) && h.server == p.server;
  }

  lemma {:induction false} SendsServable(fleet: Fleet, rows: seq<Row>, ttlOf: Row -> Option<int>, read: Store)
    requires Servable(fleet.hosted, read) && forall h :: h in fleet.hosted ==> CanonicalZone(h.name) == h.name
    ensures Servable(fleet.hosted, Sends(fleet, rows, ttlOf, read))
  {
    hide Landing, Planned, CanonicalZone, Lower, P.Stored, Sent;
    if rows != [] {
      var row := rows[|rows| - 1];
      SendsServable(fleet, rows[..|rows| - 1], ttlOf, read);
      if Sent(row) && Landing(fleet, row.ip).Some? {
        LandingServed(fleet, row.ip);
        PlannedStored(fleet, Landing(fleet, row.ip).value, row.ip, PageItem(row, ttlOf), read);
      }
    }
  }

  /** Whatever is sent, there is a next scan, so the theorems about it are about something. */
  lemma NextScan(fleet: Fleet, input: Input, ttlOf: Row -> Option<int>, store: Store) returns (next: Input)
    requires Orderly(input) && Scanned(input.reverse, store)
    requires fleet.hosted == input.hosted && forall h :: h in fleet.hosted ==> CanonicalZone(h.name) == h.name
    ensures Orderly(next) && next == input.(reverse := next.reverse)
    ensures Scanned(next.reverse, Sends(fleet, Rows(input), ttlOf, store))
  {
    hide Rows, CanonicalZone, Sends, Lookup, Lower, P.Stored;
    forall p | p in store ensures ServableAt(input.hosted, p, store[p]) {
      assert Reads(Lookup(input.reverse, p), At(store, p));
      LookupMember(input.reverse, p);
      var r := Lookup(input.reverse, p).value;
      var h :| h in input.hosted && IsCopyOf(h, r);
    }
    SendsServable(fleet, Rows(input), ttlOf, store);
    var reverse := ScanOf(input.hosted, Sends(fleet, Rows(input), ttlOf, store));
    next := input.(reverse := reverse);
  }

  /** An ok row comes out the same when nothing that is sent lands at its place. */
  lemma RouteKeepsOk(fleet: Fleet, input: Input, next: Input, ttlOf: Row -> Option<int>, store: Store, i: nat)
    requires Orderly(input) && Scanned(input.reverse, store)
    requires Orderly(next) && next == input.(reverse := next.reverse)
    requires Scanned(next.reverse, Sends(fleet, Rows(input), ttlOf, store))
    requires i < |Grouped(input.forward)|
    requires var (key, g) := Grouped(input.forward)[i];
             GroupRow(input, key, g).status.Ok? && GroupHost(input, key.horizon, g.ip).Some? &&
             forall x :: x in Rows(input) && Sent(x) ==> Landing(fleet, x.ip) != Some(GroupPlace(input, key, g))
    ensures var (key, g) := Grouped(input.forward)[i];
            GroupRow(next, key, g) == GroupRow(input, key, g) && GroupRow(input, key, g) in Rows(next)
  {
    hide Rows, Orderly, GroupRow, Grouped, Lookup, GroupPlace, Landing, GroupHost, Sends;
    var (key, g) := Grouped(input.forward)[i];
    var q, after := GroupPlace(input, key, g), Sends(fleet, Rows(input), ttlOf, store);
    SendsElsewhere(fleet, Rows(input), ttlOf, store, q);
    SameRead(input, next, store, after, q);
    SameLookup(input, next, key, g);
    GroupRowIn(next, i);
  }

  /** So every ok row is a row of the next scan when each fix lands at its own row's place. */
  lemma RouteKeepsEveryOk(fleet: Fleet, input: Input, next: Input, ttlOf: Row -> Option<int>, store: Store, row: Row)
    requires Orderly(input) && Scanned(input.reverse, store)
    requires Orderly(next) && next == input.(reverse := next.reverse)
    requires Scanned(next.reverse, Sends(fleet, Rows(input), ttlOf, store))
    requires SentLand(fleet, Rows(input)) && row in Rows(input) && row.status.Ok?
    ensures row in Rows(next)
  {
    hide Rows, Orderly, GroupRow, Grouped, Lookup, GroupPlace, Landing, GroupHost, Sends, Claims, IsOrphan, Scanned,
         RowPlace, GroupInv, IsFix;
    var orphan, i, r := RowSource(input, row);
    if orphan {
      OrphanHasIp(r, Claims(input, Grouped(input.forward)));
      OrphanFields(input, r);
    } else {
      var (key, g) := Grouped(input.forward)[i];
      GroupsInv(input.forward);
      GroupInvAt(input.forward, key, g);
      GroupRowShape(input, key, g);
      forall x | x in Rows(input) && Sent(x) ensures Landing(fleet, x.ip) != Some(GroupPlace(input, key, g)) {
        if RowPlace(x) == GroupPlace(input, key, g) { OnlyOwnFix(input, i, x); }
      }
      RouteKeepsOk(fleet, input, next, ttlOf, store, i);
    }
  }

  /* ------------------------------------------------- one side of the horizon */

  /** The route finds the row's address in the row's own zone, at the row's owner. */
  predicate FoundHere(fleet: Fleet, x: Row) {
    var m := FindReverseZone(x.ip, ZoneNames(fleet.hosted));
    m.Some? && x.reverseZone == Some(m.value.zone) && x.owner == m.value.owner
  }

  /** Without a split horizon the fix of a writable address row always lands at the row's
      place, and that of an orphan exactly when the route finds its address there. */
  lemma OneSideLandsIff(fleet: Fleet, horizon: Horizon, input: Input, x: Row)
    requires OneSided(fleet.hosted, horizon) && fleet.hosted == input.hosted
    requires Orderly(input) && AsRead(input.reverse) && x in Rows(input) && IsFix(x) && x.canWrite
    ensures Landing(fleet, x.ip) == Some(RowPlace(x)) <==> !x.status.Orphan? || FoundHere(fleet, x)
  {
    hide Rows, OrphanRowOf, GroupRow, IsOrphan, Grouped, Claims, Lower, FindReverseZone, Landing, Orderly, HostOf,
         OneSided, HostedByHorizon, RowPlace, GroupHost, GroupPlace;
    var orphan, i, r := RowSource(input, x);
    if orphan {
      OrphanHasIp(r, Claims(input, Grouped(input.forward)));
      OrphanFields(input, r);
      OrphanRowShape(input, r);
      OrphanLandsIff(fleet, horizon, input, r);
    } else {
      var (key, g) := Grouped(input.forward)[i];
      GroupFix(input, i);
      GroupLands(fleet, horizon, input, key, g);
    }
  }

  lemma GroupLands(fleet: Fleet, horizon: Horizon, input: Input, key: GroupKey, g: Group)
    requires OneSided(fleet.hosted, horizon) && fleet.hosted == input.hosted
    requires GroupHost(input, key.horizon, g.ip).Some? && GroupRow(input, key, g).canWrite
    ensures GroupRow(input, key, g).ip == g.ip
    ensures Landing(fleet, g.ip) == Some(GroupPlace(input, key, g))
  {
    hide Names, Lookup, Decide, FindReverseZone, HostedByHorizon, HostOf, Landing, CanonicalZone, Lower;
    GroupRowIp(input, key, g);
    HostHasMatch(input, key, g);
    var host := GroupHost(input, key.horizon, g.ip).value;
    assert host in fleet.hosted && IsCopy(host, host.name, key.horizon);
    OwnerIsLower(g.ip, HostedByHorizon(input.hosted, key.horizon));
    OneSideLands(fleet, horizon, g.ip);
  }

  lemma OrphanLandsIff(fleet: Fleet, horizon: Horizon, input: Input, r: Reverse)
    requires OneSided(fleet.hosted, horizon) && fleet.hosted == input.hosted && Orderly(input) && r in input.reverse
    requires IpFromReverseOwner(r.owner).Some? && Lower(r.owner) == r.owner && OrphanRowOf(input, r).canWrite
    ensures var x := OrphanRowOf(input, r);
            Landing(fleet, x.ip) == Some(PlaceOf(r)) <==> FoundHere(fleet, x)
  {
    hide FindReverseZone, ChooseHost, OneSided, HostOf, IpFromReverseOwner, ParseIp;
    var h :| h in input.hosted && IsCopyOf(h, r);
    SideOf(fleet.hosted, horizon, h);
    var host := HostOf(r.zone, input.hosted, r.horizon);
    assert IsCopy(h, r.zone, r.horizon);
    OrphanRowShape(input, r);
    OnlyHost(fleet, horizon, r.zone, host.value);
  }

  lemma SideOf(hosted: seq<HostedZone>, horizon: Horizon, h: HostedZone)
    requires OneSided(hosted, horizon) && h in hosted
    ensures h.horizon == horizon
  {}

  /** On one side of the horizon a round settles exactly when the items suffice and the
      route finds every orphan's address where the orphan was read. */
  lemma OneSideRoundSettlesIff(fleet: Fleet, horizon: Horizon, input: Input, next: Input, ttlOf: Row -> Option<int>,
                               store: Store)
    requires OneSided(fleet.hosted, horizon) && fleet.hosted == input.hosted
    requires Orderly(input) && Scanned(input.reverse, store)
    requires Orderly(next) && next == input.(reverse := next.reverse)
    requires Scanned(next.reverse, Sends(fleet, Rows(input), ttlOf, store))
    ensures AllQuiet(next) <==>
            PageSettles(input) && forall x :: x in Rows(input) && x.status.Orphan? ==> FoundHere(fleet, x)
  {
    hide Rows, Orderly, AllQuiet, AllSettle, Landing, RowPlace, P.Stored, Sends, OneSided, FoundHere, Lookup;
    RouteRoundSettlesIff(fleet, input, next, ttlOf, store);
    if PageSettles(input) {
      forall x | x in Rows(input) && IsFix(x)
        ensures Landing(fleet, x.ip) == Some(RowPlace(x)) <==> !x.status.Orphan? || FoundHere(fleet, x)
      {
        assert Sufficient(x);
        OneSideLandsIff(fleet, horizon, input, x);
      }
      forall x | x in Rows(input) && x.status.Orphan? ensures IsFix(x) { OrphanIsFix(input, x); }
    }
  }

  lemma OrphanIsFix(input: Input, x: Row)
    requires Orderly(input) && x in Rows(input) && x.status.Orphan?
    ensures IsFix(x)
  {
    hide Rows, OrphanRowOf, GroupRow, IsOrphan, Grouped, Claims, GroupInv;
    var orphan, i, r := RowSource(input, x);
    if orphan {
      OrphanHasIp(r, Claims(input, Grouped(input.forward)));
      OrphanRowShape(input, r);
    } else {
      var (key, g) := Grouped(input.forward)[i];
      GroupsInv(input.forward);
      GroupInvAt(input.forward, key, g);
      GroupRowShape(input, key, g);
    }
  }

  /* ------------------------------------------- an orphan whose fix lands elsewhere */

  /** The /16 and the /24 of an address on one server and one side, with the same PTR at
      the address's owner in both; the forward record claims the /24's. */
  function NestedInput(o: seq<nat>, forwardBefore: (Forward, Forward) -> bool,
                       ipBefore: (string, string) -> bool): Input
    requires ValidOctets(o)
  {
    var owner := OwnerOf(Quad(o));
    Input([Forward("z", "s", Public, "h.", 300, false, Quad(o).canonical)],
          [Reverse(ZoneAbove(o, 2), "s", Public, owner, 300, ["h."]),
           Reverse(ZoneAbove(o, 1), "s", Public, owner, 300, ["h."])],
          [HostedZone(ZoneAbove(o, 2), "s", true, Public), HostedZone(ZoneAbove(o, 1), "s", true, Public)],
          (zone: string, server: string) => true, forwardBefore, ipBefore)
  }

  function NestedStore(o: seq<nat>): Store
    requires ValidOctets(o)
  {
    StoreOf(ZoneAbove(o, 2), ZoneAbove(o, 1), OwnerOf(Quad(o)))
  }

  function StoreOf(wide: string, near: string, owner: string): Store {
    var rr := A.RRset(300, [A.AddressRecord("h.", false)]);
    map[Place("s", wide, owner) := rr, Place("s", near, owner) := rr]
  }

  /** All that matters about the two zones and the address. */
  ghost predicate Nested(input: Input, wide: string, near: string, owner: string, ip: string) {
    input.hosted == [HostedZone(wide, "s", true, Public), HostedZone(near, "s", true, Public)] &&
    input.reverse == [Reverse(wide, "s", Public, owner, 300, ["h."]), Reverse(near, "s", Public, owner, 300, ["h."])] &&
    |input.forward| == 1 && input.forward[0].name == "h." && input.forward[0].horizon == Public &&
    (forall z, s :: input.canWriteReverse(z, s)) &&
    |wide| < |near| && CanonicalZone(wide) == wide && CanonicalZone(near) == near && Lower(owner) == owner &&
    FindReverseZone(ip, [wide, near]) == Some(ReverseZoneMatch(near, owner, false)) &&
      IpFromReverseOwner(owner) == Some(ip)
  }

  lemma NestedHolds(o: seq<nat>, forwardBefore: (Forward, Forward) -> bool, ipBefore: (string, string) -> bool)
    requires ValidOctets(o)
    ensures var input := NestedInput(o, forwardBefore, ipBefore);
            Nested(input, ZoneAbove(o, 2), ZoneAbove(o, 1), OwnerOf(Quad(o)), Quad(o).canonical) &&
            |input.forward| == 1 && input.forward[0].content == Quad(o).canonical
    ensures NestedStore(o) == StoreOf(ZoneAbove(o, 2), ZoneAbove(o, 1), OwnerOf(Quad(o)))
  {
    hide OwnerOf, ZoneAbove, FindReverseZone, CanonicalZone, ProperSuffix, ParseClasslessZone, ParseIp, ParseIpv4,
         IpFromReverseOwner, Lower, Quad;
    var wide, near, ip := ZoneAbove(o, 2), ZoneAbove(o, 1), Quad(o).canonical;
    QuadIsParsed(o);
    AboveLength(o);
    AboveCanonical(o, 1);
    AboveCanonical(o, 2);
    AboveSuffix(o, 1);
    AboveNotClassless(o, 1);
    AboveNotClassless(o, 2);
    FindLongest(ip, [wide, near], near);
    OwnerIsLower(ip, [wide, near]);
    QuadBack(o);
  }

  lemma NestedZones(hosted: seq<HostedZone>, wide: string, near: string)
    requires hosted == [HostedZone(wide, "s", true, Public), HostedZone(near, "s", true, Public)] && wide != near
    requires CanonicalZone(wide) == wide && CanonicalZone(near) == near
    ensures OneSided(hosted, Public) && ZoneNames(hosted) == [wide, near] &&
            HostedByHorizon(hosted, Public) == [wide, near]
    ensures HostOf(near, hosted, Public) == Some(hosted[1]) && HostOf(wide, hosted, Public) == Some(hosted[0])
  {
    hide CanonicalZone;
    var one := hosted[..1];
    assert one == [hosted[0]] && |one[..0]| == 0;
    assert HostedByHorizon(one, Public) == [wide];
    assert !IsCopy(hosted[0], near, Public) && IsCopy(hosted[1], near, Public) && hosted[1..][0] == hosted[1];
  }

  lemma NestedRead(input: Input, wide: string, near: string, owner: string, ip: string)
    requires Nested(input, wide, near, owner, ip)
    ensures Orderly(input) && Scanned(input.reverse, StoreOf(wide, near, owner))
    ensures Lookup(input.reverse, Place("s", near, owner)) == Some(input.reverse[1])
  {
    hide FindReverseZone, CanonicalZone, IpFromReverseOwner, Lower, P.Absolute, Lookup;
    var reverse, store := input.reverse, StoreOf(wide, near, owner);
    assert IsCopyOf(input.hosted[0], reverse[0]) && IsCopyOf(input.hosted[1], reverse[1]);
    StoredH();
    assert PlaceOf(reverse[0]) == Place("s", wide, owner) && PlaceOf(reverse[1]) == Place("s", near, owner);
    forall p ensures Reads(Lookup(reverse, p), At(store, p)) {
      LookupMember(reverse, p);
      assert reverse[0] in reverse && reverse[1] in reverse;
      assert A.Targets([A.AddressRecord("h.", false)]) == ["h."];
    }
    assert AsRead(reverse);
    LookupOf(reverse, reverse[1]);
  }

  lemma StoredH()
    ensures P.Absolute("h.") == "h." && Lower("h.") == "h." && P.Stored(["h."])
  {
    hide P.Absolute, Trim, Lower;
    RelativeH();
    P.AbsoluteTwice("h");
  }

  lemma NestedOk(input: Input, wide: string, near: string, owner: string, key: GroupKey, g: Group)
    requires Nested(input, wide, near, owner, g.ip) && key.horizon == Public && g.records == [input.forward[0]]
    ensures var row := GroupRow(input, key, g);
            row.status.Ok? && row.reverseZone == Some(near) && row.owner == owner
    ensures ClaimsOf(input, key, g) == {Claim(Public, near, owner)}
  {
    hide FindReverseZone, CanonicalZone, IpFromReverseOwner, Lower, P.Absolute, Lookup, HostedByHorizon, HostOf, Names,
         GroupRow;
    NestedZones(input.hosted, wide, near);
    NestedRead(input, wide, near, owner, g.ip);
    StoredH();
    OneName(g, "h.");
    GroupRowFields(input, key, g);
    assert LowerAll(["h."]) == ["h."];
    assert TargetsOf(Current(input, key.horizon, g.ip)) == ["h."];
  }

  lemma NestedOrphan(input: Input, wide: string, near: string, owner: string, ip: string, key: GroupKey, g: Group)
    requires Nested(input, wide, near, owner, ip) && Grouped(input.forward) == [(key, g)]
    requires ClaimsOf(input, key, g) == {Claim(Public, near, owner)}
    ensures IsOrphan(input.reverse[0], Claims(input, Grouped(input.forward)))
    ensures var row := OrphanRowOf(input, input.reverse[0]);
            row.ip == ip && row.status.Orphan? && Sent(row) && RowPlace(row) == Place("s", wide, owner) &&
            row.currentTargets == ["h."] && row.currentTtl == Some(300)
  {
    hide FindReverseZone, CanonicalZone, IpFromReverseOwner, Lower, HostOf, ParseIp, ClaimsOf;
    NestedZones(input.hosted, wide, near);
    var groups: Groups := [(key, g)];
    assert groups[..0] == [] && Claims(input, groups) == ClaimsOf(input, key, g);
  }

  lemma NestedFix(fleet: Fleet, input: Input, wide: string, near: string, owner: string, row: Row)
    requires Nested(input, wide, near, owner, row.ip) && fleet.hosted == input.hosted
    requires row.currentTargets == ["h."] && row.currentTtl == Some(300)
    ensures var store, p := StoreOf(wide, near, owner), Place("s", near, owner);
            var after := Rectify(fleet, row.ip, RemoveItem(row), store);
            View(owner, At(store, p)).Some? && View(owner, At(after, p)) == None &&
            At(after, Place("s", wide, owner)) == At(store, Place("s", wide, owner))
  {
    hide FindReverseZone, CanonicalZone, IpFromReverseOwner, Lower, P.Absolute, A.After, P.FixJob, P.AfterOf;
    NestedZones(fleet.hosted, wide, near);
    NestedLanding(fleet, row.ip, wide, near, owner);
    var store, p, item := StoreOf(wide, near, owner), Place("s", near, owner), RemoveItem(row);
    StoredH();
    OneLeft(item);
    P.RemoveIsAsShown(row.ip, item, ZoneNames(fleet.hosted), map[owner := store[p]]);
  }

  lemma NestedLanding(fleet: Fleet, ip: string, wide: string, near: string, owner: string)
    requires fleet.hosted == [HostedZone(wide, "s", true, Public), HostedZone(near, "s", true, Public)]
    requires OneSided(fleet.hosted, Public) && ZoneNames(fleet.hosted) == [wide, near]
    requires HostOf(near, fleet.hosted, Public) == Some(fleet.hosted[1])
    requires FindReverseZone(ip, [wide, near]) == Some(ReverseZoneMatch(near, owner, false))
    ensures Landing(fleet, ip) == Some(Place("s", near, owner))
  {
    hide *;
    OnlyHost(fleet, Public, near, fleet.hosted[1]);
    LandingIs(fleet, ip, ReverseZoneMatch(near, owner, false), "s");
  }

  lemma OneLeft(item: P.ReviewInput)
    requires item.fix.Remove? && item.currentTargets == [item.target]
    ensures P.AfterOf(item) == None
  {
    hide P.Absolute;
    RemainingIsEmptyIff(item.currentTargets);
  }

  /** The reconciler calls the /24's PTR ok and the /16's an orphan; the fix of the orphan
      empties the PTR in the /24 and leaves the one in the /16. */
  lemma OrphanFixEmptiesOkRow(o: seq<nat>, forwardServer: string, clusterOf: string -> Option<string>,
                              forwardBefore: (Forward, Forward) -> bool, ipBefore: (string, string) -> bool)
    returns (ok: Row, orphan: Row)
    requires ValidOctets(o)
    ensures var input, store := NestedInput(o, forwardBefore, ipBefore), NestedStore(o);
            Orderly(input) && Scanned(input.reverse, store) && OneSided(input.hosted, Public) &&
            ok in Rows(input) && ok.status.Ok? && ok.reverseZone == Some(ZoneAbove(o, 1)) &&
              ok.owner == OwnerOf(Quad(o)) &&
            orphan in Rows(input) && orphan.status.Orphan? && Sent(orphan) &&
            RowPlace(orphan) == Place("s", ZoneAbove(o, 2), ok.owner) &&
            var after := Rectify(Fleet(input.hosted, forwardServer, clusterOf), orphan.ip, RemoveItem(orphan), store);
            View(ok.owner, At(store, Place("s", ZoneAbove(o, 1), ok.owner))).Some? &&
            View(ok.owner, At(after, Place("s", ZoneAbove(o, 1), ok.owner))) == None &&
            At(after, RowPlace(orphan)) == At(store, RowPlace(orphan))
  {
    hide *;
    var input := NestedInput(o, forwardBefore, ipBefore);
    var wide, near, owner, ip := ZoneAbove(o, 2), ZoneAbove(o, 1), OwnerOf(Quad(o)), Quad(o).canonical;
    NestedHolds(o, forwardBefore, ipBefore);
    NestedApart(input, wide, near, owner, ip);
    NestedRead(input, wide, near, owner, ip);
    var key, g := OneGroup(input.forward[0], o);
    NestedOk(input, wide, near, owner, key, g);
    ok := GroupRow(input, key, g);
    assert Grouped(input.forward)[0] == (key, g);
    GroupRowIn(input, 0);
    NestedOrphan(input, wide, near, owner, ip, key, g);
    OrphanRowIn(input, input.reverse[0]);
    OrphanHasIp(input.reverse[0], Claims(input, Grouped(input.forward)));
    orphan := OrphanRowOf(input, input.reverse[0]);
    NestedFix(Fleet(input.hosted, forwardServer, clusterOf), input, wide, near, owner, orphan);
  }

  lemma NestedApart(input: Input, wide: string, near: string, owner: string, ip: string)
    requires Nested(input, wide, near, owner, ip)
    ensures OneSided(input.hosted, Public) && wide != near && |input.reverse| == 2
    ensures input.forward == [input.forward[0]] && input.forward[0].horizon == Public
  {
    hide FindReverseZone, CanonicalZone, IpFromReverseOwner, Lower;
    NestedZones(input.hosted, wide, near);
  }
}
