/** The round of fixes the reverse-DNS page sends: writable rows only, and of an orphan
    one removal. It settles the reconciler exactly when every name to be written is among
    the names it is compared with, every fix may be written, and no orphan has targets of
    two spellings. */
module PtrPage {
  import opened Options
  import opened Text
  import opened ReverseName
  import opened PtrReconcile
  import opened PtrConvergence
  import P = PtrReview

  predicate Sent(row: Row) {
    IsFix(row) && row.canWrite && (row.status.Orphan? ==> row.currentTargets != [])
  }

  function SetItem(row: Row, ttl: Option<int>): P.ReviewInput
    requires IsSet(row)
  {
    P.ReviewInput(row.owner, row.reverseZone, row.currentTargets, row.currentTtl, P.Set, row.suggestedTarget.value, ttl)
  }

  function RemoveItem(row: Row): P.ReviewInput
    requires row.currentTargets != []
  {
    P.ReviewInput(row.owner, row.reverseZone, row.currentTargets, row.currentTtl, P.Remove, row.currentTargets[0], None)
  }

  function PageItem(row: Row, ttlOf: Row -> Option<int>): P.ReviewInput
    requires Sent(row)
  {
    if IsSet(row) then SetItem(row, ttlOf(row)) else RemoveItem(row)
  }

  /** What the item leaves at the row's place. */
  function Left(row: Row, ttlOf: Row -> Option<int>): Option<Reverse>
    requires Sent(row)
  {
    var rr := P.AfterOf(PageItem(row, ttlOf));
    if rr.None? then None
    else Some(Reverse(row.reverseZone.value, row.reverseServer.value, row.horizon, row.owner, rr.value.ttl,
                      rr.value.records))
  }

  function PageFix(reverse: seq<Reverse>, row: Row, ttlOf: Row -> Option<int>): seq<Reverse> {
    if !Sent(row) then reverse
    else
      Without(reverse, RowPlace(row)) + (if Left(row, ttlOf).Some? then [Left(row, ttlOf).value] else [])
  }

  function PageFixes(reverse: seq<Reverse>, rows: seq<Row>, ttlOf: Row -> Option<int>): seq<Reverse> {
    if rows == [] then reverse
    else PageFix(PageFixes(reverse, rows[..|rows| - 1], ttlOf), rows[|rows| - 1], ttlOf)
  }

  function PageRound(input: Input, ttlOf: Row -> Option<int>): Input {
    input.(reverse := PageFixes(input.reverse, Rows(input), ttlOf))
  }

  /** One RRset at an owner of a zone, its owner in lower case, as the scan reads it. */
  ghost predicate AsRead(reverse: seq<Reverse>) {
    (forall r :: r in reverse ==> Lower(r.owner) == r.owner) &&
    (forall a, b :: a in reverse && b in reverse && PlaceOf(a) == PlaceOf(b) ==> a == b)
  }

  predicate OneSpelling(targets: seq<string>) {
    forall i :: 0 <= i < |targets| ==> P.Absolute(targets[i]) == P.Absolute(targets[0])
  }

  ghost predicate AllQuiet(input: Input) {
    forall row :: row in Rows(input) ==> Quiet(row)
  }

  /** Every fix may be written and empties its orphan at once. */
  ghost predicate Sufficient(row: Row) {
    IsFix(row) ==> row.canWrite && (row.status.Orphan? ==> OneSpelling(row.currentTargets))
  }

  ghost predicate PageSettles(input: Input) {
    AllSettle(input) && forall row :: row in Rows(input) ==> Sufficient(row)
  }

  /* ------------------------------------------------------- what an item leaves */

  lemma LeftIs(row: Row, ttlOf: Row -> Option<int>)
    requires Sent(row)
    ensures var l := Left(row, ttlOf);
            (IsSet(row) ==> l == Some(Written(row, ttlOf(row)))) &&
            (row.status.Orphan? ==> (l.None? <==> OneSpelling(row.currentTargets))) &&
            (l.Some? ==> PlaceOf(l.value) == RowPlace(row) && l.value.horizon == row.horizon &&
                         l.value.owner == row.owner && l.value.targets != [] && P.Stored(l.value.targets))
  {
    hide P.Absolute, P.Remaining, Lower;
    var item := PageItem(row, ttlOf);
    var rr := P.AfterOf(item);
    if row.status.Orphan? { RemainingIsEmptyIff(row.currentTargets); }
    if rr.Some? {
      forall i | 0 <= i < |rr.value.records|
        ensures P.Absolute(rr.value.records[i]) == Lower(rr.value.records[i])
      {
        P.AbsoluteTwice(if IsSet(row) then item.target
                        else P.Remaining(item.currentTargets, P.Absolute(item.target))[i]);
      }
    }
  }

  lemma RemainingIsEmptyIff(targets: seq<string>)
    requires targets != []
    ensures P.Remaining(targets, P.Absolute(targets[0])) == [] <==> OneSpelling(targets)
  {
    hide P.Absolute;
    var rest := P.Remaining(targets, P.Absolute(targets[0]));
    if rest != [] {
      assert rest[0] in rest;
      var i :| 0 <= i < |targets| && targets[i] == rest[0];
    }
    forall i | rest == [] && 0 <= i < |targets| ensures P.Absolute(targets[i]) == P.Absolute(targets[0]) {
      assert targets[i] in targets && targets[i] !in rest;
    }
  }

  lemma PageFixLookup(reverse: seq<Reverse>, row: Row, ttlOf: Row -> Option<int>, q: Place)
    ensures Lookup(PageFix(reverse, row, ttlOf), q) ==
            if Sent(row) && RowPlace(row) == q then Left(row, ttlOf) else Lookup(reverse, q)
  {
    hide Without, Lookup, Lower, Left, IsFix, RowPlace, PlaceOf;
    if Sent(row) {
      LookupWithout(reverse, RowPlace(row), q);
      LeftIs(row, ttlOf);
      if Left(row, ttlOf).Some? {
        LookupAppend(Without(reverse, RowPlace(row)), Left(row, ttlOf).value, q);
      } else {
        assert PageFix(reverse, row, ttlOf) == Without(reverse, RowPlace(row));
      }
    }
  }

  /** A place no sent row is about reads as before. */
  lemma {:induction false} PageElsewhere(reverse: seq<Reverse>, rows: seq<Row>, ttlOf: Row -> Option<int>, q: Place)
    requires forall x :: x in rows && Sent(x) ==> RowPlace(x) != q
    ensures Lookup(PageFixes(reverse, rows, ttlOf), q) == Lookup(reverse, q)
  {
    hide PageFix, Lookup, Sent, RowPlace;
    if rows != [] {
      var n := |rows| - 1;
      PageElsewhere(reverse, rows[..n], ttlOf, q);
      PageFixLookup(PageFixes(reverse, rows[..n], ttlOf), rows[n], ttlOf, q);
    }
  }

  /** A place one sent row is about reads what its item leaves. */
  lemma {:induction false} PageAt(reverse: seq<Reverse>, rows: seq<Row>, ttlOf: Row -> Option<int>, row: Row)
    requires row in rows && Sent(row)
    requires forall x :: x in rows && Sent(x) && RowPlace(x) == RowPlace(row) ==> x == row
    ensures Lookup(PageFixes(reverse, rows, ttlOf), RowPlace(row)) == Left(row, ttlOf)
  {
    hide PageFix, Lookup, IsFix, RowPlace, Left;
    var n := |rows| - 1;
    PageFixLookup(PageFixes(reverse, rows[..n], ttlOf), rows[n], ttlOf, RowPlace(row));
    if rows[n] != row {
      assert rows == rows[..n] + [rows[n]];
      PageAt(reverse, rows[..n], ttlOf, row);
    }
  }

  /** A record after the page's round was there untouched or is what an item left. */
  lemma {:induction false} PageMember(reverse: seq<Reverse>, rows: seq<Row>, ttlOf: Row -> Option<int>, r: Reverse)
    requires r in PageFixes(reverse, rows, ttlOf)
    ensures (r in reverse && forall x :: x in rows && Sent(x) ==> RowPlace(x) != PlaceOf(r)) ||
            (exists x :: x in rows && Sent(x) && Left(x, ttlOf) == Some(r))
  {
    hide PageFix, RowPlace, PlaceOf, IsFix, Left;
    if rows != [] {
      var n := |rows| - 1;
      var before := PageFixes(reverse, rows[..n], ttlOf);
      assert rows == rows[..n] + [rows[n]] && rows[n] in rows;
      PageFixMember(before, rows[n], ttlOf, r);
      if r in before { PageMember(reverse, rows[..n], ttlOf, r); }
    }
  }

  lemma PageFixMember(reverse: seq<Reverse>, row: Row, ttlOf: Row -> Option<int>, r: Reverse)
    requires r in PageFix(reverse, row, ttlOf)
    ensures (r in reverse && (Sent(row) ==> RowPlace(row) != PlaceOf(r))) || (Sent(row) && Left(row, ttlOf) == Some(r))
  {
    hide Without, Left, RowPlace, PlaceOf, IsFix;
    if Sent(row) { WithoutMember(reverse, RowPlace(row), r); }
  }

  lemma {:induction false} LookupMember(reverse: seq<Reverse>, q: Place)
    ensures var l := Lookup(reverse, q);
            (l.Some? ==> l.value in reverse && PlaceOf(l.value) == q) &&
            (l.None? ==> forall r :: r in reverse ==> PlaceOf(r) != q)
  {
    hide PlaceOf;
    if reverse != [] {
      var n := |reverse| - 1;
      LookupMember(reverse[..n], q);
      LookupAppend(reverse[..n], reverse[n], q);
      assert reverse == reverse[..n] + [reverse[n]];
    }
  }

  lemma LookupOf(reverse: seq<Reverse>, r: Reverse)
    requires AsRead(reverse) && r in reverse
    ensures Lookup(reverse, PlaceOf(r)) == Some(r)
  {
    hide PlaceOf, Lookup;
    LookupMember(reverse, PlaceOf(r));
  }

  /* ----------------------------------------------------- places of the fixes */

  /** A row with a fix, where it comes from and that its place is its own. */
  lemma FixPlacesDiffer(input: Input, x: Row, y: Row)
    requires Orderly(input) && AsRead(input.reverse) && x in Rows(input) && y in Rows(input)
    requires IsFix(x) && IsFix(y) && RowPlace(x) == RowPlace(y)
    ensures x == y
  {
    hide Rows, OrphanRowOf, GroupRow, IsOrphan, Grouped, Claims, RowPlace, IsFix, GroupHost, Orderly, GroupPlace,
         PlaceOf;
    var orphan, i, r := RowSource(input, x);
    var also, j, s := RowSource(input, y);
    if !orphan {
      GroupFix(input, i);
      OnlyOwnFix(input, i, y);
    } else if !also {
      GroupFix(input, j);
      OnlyOwnFix(input, j, x);
    } else {
      OrphanHasIp(r, Claims(input, Grouped(input.forward)));
      OrphanHasIp(s, Claims(input, Grouped(input.forward)));
      OrphanRowShape(input, r);
      OrphanRowShape(input, s);
    }
  }

  lemma GroupFix(input: Input, i: nat)
    requires i < |Grouped(input.forward)|
    requires IsFix(GroupRow(input, Grouped(input.forward)[i].0, Grouped(input.forward)[i].1))
    ensures var (key, g) := Grouped(input.forward)[i];
            var row := GroupRow(input, key, g);
            GroupHost(input, key.horizon, g.ip).Some? && IsSet(row) && RowPlace(row) == GroupPlace(input, key, g) &&
            !row.status.Ok? && !row.status.Orphan?
  {
    hide GroupRow, Grouped, GroupInv, GroupHost, IsFix, RowPlace, GroupPlace, IsSet, Names;
    var (key, g) := Grouped(input.forward)[i];
    GroupsInv(input.forward);
    GroupInvAt(input.forward, key, g);
    GroupRowShape(input, key, g);
  }

  /* ------------------------------------------------------ when it settles */

  /** A fix row whose place reads as before is a row of the second pass as well. */
  lemma UntouchedStays(input: Input, next: Input, row: Row)
    requires Orderly(input) && AsRead(input.reverse) && next == input.(reverse := next.reverse)
    requires row in Rows(input) && IsFix(row) &&
             Lookup(next.reverse, RowPlace(row)) == Lookup(input.reverse, RowPlace(row))
    ensures !AllQuiet(next)
  {
    hide Rows, OrphanRowOf, GroupRow, IsOrphan, Grouped, Claims, RowPlace, IsFix, GroupHost, Orderly, GroupPlace,
         PlaceOf, Lookup, AsRead;
    var orphan, i, r := RowSource(input, row);
    var groups := Grouped(input.forward);
    if orphan {
      OrphanHasIp(r, Claims(input, groups));
      OrphanRowShape(input, r);
      LookupOf(input.reverse, r);
      LookupMember(next.reverse, PlaceOf(r));
      OrphanLeft(input, next, r);
    } else {
      GroupFix(input, i);
      SameLookup(input, next, groups[i].0, groups[i].1);
      GroupRowIn(next, i);
      FixIsUnquiet(row);
    }
  }

  lemma FixIsUnquiet(row: Row)
    requires IsFix(row)
    ensures !Quiet(row)
  {}

  lemma OrphanLeft(input: Input, next: Input, r: Reverse)
    requires next == input.(reverse := next.reverse) && r in next.reverse
    requires IsOrphan(r, Claims(input, Grouped(input.forward)))
    ensures !AllQuiet(next)
  {
    hide Rows, Grouped, Claims, IsOrphan;
    SameClaims(input, next, Grouped(input.forward));
    OrphanRowIn(next, r);
    OrphanStatus(next, r, Claims(input, Grouped(input.forward)));
  }

  lemma OrphanStatus(input: Input, r: Reverse, claims: set<Claim>)
    requires IsOrphan(r, claims)
    ensures !Quiet(OrphanRowOf(input, r))
  {
    hide IpFromReverseOwner, ParseIp, HostOf;
  }

  /** An orphan with a target of another spelling keeps it. */
  lemma OtherSpellingStays(input: Input, next: Input, row: Row, ttlOf: Row -> Option<int>)
    requires Orderly(input) && AsRead(input.reverse) && next == input.(reverse := next.reverse)
    requires row in Rows(input) && Sent(row) && row.status.Orphan? && !OneSpelling(row.currentTargets)
    requires Lookup(next.reverse, RowPlace(row)) == Left(row, ttlOf)
    ensures !AllQuiet(next)
  {
    hide Rows, GroupRow, IsOrphan, Grouped, Claims, RowPlace, IsFix, Orderly, PlaceOf, Lookup, Left, OneSpelling,
         OrphanRowOf, AllQuiet, Lower;
    var orphan, i, r := RowSource(input, row);
    LeftIs(row, ttlOf);
    LookupMember(next.reverse, RowPlace(row));
    if orphan {
      OrphanHasIp(r, Claims(input, Grouped(input.forward)));
      OrphanRowShape(input, r);
      OrphanFields(input, r);
      SamePlaceOrphan(r, Left(row, ttlOf).value, Claims(input, Grouped(input.forward)));
      OrphanLeft(input, next, Left(row, ttlOf).value);
    } else {
      GroupFix(input, i);
    }
  }

  lemma OrphanFields(input: Input, r: Reverse)
    requires IpFromReverseOwner(r.owner).Some?
    ensures var row := OrphanRowOf(input, r);
            row.horizon == r.horizon && row.owner == Lower(r.owner) && row.currentTargets == r.targets &&
            row.ip == IpFromReverseOwner(r.owner).value && row.status.Orphan?
  {
    hide IpFromReverseOwner, ParseIp, HostOf, Lower;
  }

  lemma SamePlaceOrphan(r: Reverse, s: Reverse, claims: set<Claim>)
    requires IsOrphan(r, claims) && PlaceOf(s) == PlaceOf(r) && s.horizon == r.horizon && s.targets != []
    requires Lower(r.owner) == r.owner && Lower(s.owner) == s.owner
    ensures IsOrphan(s, claims)
  {
    hide IpFromReverseOwner, Lower;
  }

  /** When the items suffice the page's round is the round of all fixes. */
  lemma {:induction false} PageIsAll(input: Input, rows: seq<Row>, ttlOf: Row -> Option<int>)
    requires forall x :: x in rows ==> Sufficient(x) && (x.status.Orphan? ==> x.currentTargets != [])
    requires OrphansEmptied(rows)
    ensures PageFixes(input.reverse, rows, ttlOf) == ApplyFixes(input.reverse, rows, ttlOf)
  {
    hide PageFix, ApplyFix, Sufficient, AfterRemoving;
    if rows != [] {
      var n := |rows| - 1;
      PageIsAll(input, rows[..n], ttlOf);
      OneIsAll(PageFixes(input.reverse, rows[..n], ttlOf), rows[n], ttlOf);
    }
  }

  lemma OneIsAll(reverse: seq<Reverse>, row: Row, ttlOf: Row -> Option<int>)
    requires Sufficient(row) && (row.status.Orphan? ==> row.currentTargets != [])
    requires row.status.Orphan? ==> AfterRemoving(row, row.currentTargets, row.currentTargets) == []
    ensures PageFix(reverse, row, ttlOf) == ApplyFix(reverse, row, ttlOf)
  {
    hide Left, AfterRemoving, Without, RowPlace, OneSpelling, Written, PlaceOf;
    if IsFix(row) { LeftIs(row, ttlOf); }
  }

  lemma OrphanHasTargets(input: Input, row: Row)
    requires row in Rows(input) && row.status.Orphan?
    ensures row.currentTargets != []
  {
    hide Rows, GroupRow, Grouped, Claims, IpFromReverseOwner, ParseIp, HostOf;
    var orphan, i, r := RowSource(input, row);
    if !orphan {
      GroupsInv(input.forward);
      GroupRowShape(input, Grouped(input.forward)[i].0, Grouped(input.forward)[i].1);
    }
  }

  /** The page's round settles everything exactly when the names do, everything may be
      written, and one removal empties each orphan. */
  lemma PageRoundSettlesIff(input: Input, ttlOf: Row -> Option<int>)
    requires Orderly(input) && AsRead(input.reverse)
    ensures AllQuiet(PageRound(input, ttlOf)) <==> PageSettles(input)
  {
    hide Rows, Orderly, AsRead, AllSettle, Sufficient, OrphansEmptied, PageFixes, ApplyFixes;
    var rows := Rows(input);
    if forall row :: row in rows ==> Sufficient(row) {
      RowsOrphansEmptied(input);
      forall row | row in rows && row.status.Orphan? ensures row.currentTargets != [] { OrphanHasTargets(input, row); }
      PageIsAll(input, rows, ttlOf);
      OneRoundSettlesIff(input, ttlOf);
    } else {
      var row :| row in rows && !Sufficient(row);
      InsufficientStays(input, ttlOf, row);
    }
  }

  lemma InsufficientStays(input: Input, ttlOf: Row -> Option<int>, row: Row)
    requires Orderly(input) && AsRead(input.reverse) && row in Rows(input) && !Sufficient(row)
    ensures !AllQuiet(PageRound(input, ttlOf))
  {
    hide Rows, Orderly, AsRead, AllQuiet, PageFixes, RowPlace, Lookup, Left, OneSpelling, IsFix;
    var rows, next := Rows(input), PageRound(input, ttlOf);
    forall x | x in rows && Sent(x) && RowPlace(x) == RowPlace(row) ensures x == row { FixPlacesDiffer(input, x, row); }
    if row.status.Orphan? { OrphanHasTargets(input, row); }
    if Sent(row) {
      PageAt(input.reverse, rows, ttlOf, row);
      OtherSpellingStays(input, next, row, ttlOf);
    } else {
      PageElsewhere(input.reverse, rows, ttlOf, RowPlace(row));
      UntouchedStays(input, next, row);
    }
  }

  /* ------------------------------------------------------------- the counts */

  lemma {:induction false} CountPositive(rows: seq<Row>, row: Row)
    requires row in rows
    ensures Count(rows, row.status) > 0
  {
    var n := |rows| - 1;
    if rows[n] != row {
      assert rows == rows[..n] + [rows[n]];
      CountPositive(rows[..n], row);
    }
  }

  /** Settled is what the page's counts say: nothing missing, wrong, ambiguous or orphaned. */
  lemma QuietIffCounts(input: Input)
    ensures var s := StatsOf(Rows(input));
            AllQuiet(input) <==> s.missing == 0 && s.mismatch == 0 && s.ambiguous == 0 && s.orphan == 0
  {
    hide Rows, Count;
    var rows := Rows(input);
    if AllQuiet(input) {
      forall i | 0 <= i < |rows| ensures Quiet(rows[i]) { assert rows[i] in rows; }
      CountZero(rows, Missing);
      CountZero(rows, Mismatch);
      CountZero(rows, Ambiguous);
      CountZero(rows, Orphan);
    } else {
      var row :| row in rows && !Quiet(row);
      CountPositive(rows, row);
    }
  }
}
