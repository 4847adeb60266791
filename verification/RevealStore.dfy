/** The in-process half of the temporary reveal store: single-use secrets in an
    insertion-ordered map with a TTL, a cap, and a quota for anonymous actors. */
module RevealStore {
  import opened InsertionMap
  import opened Options
  import Text

  datatype Entry = Entry(plaintext: string, allowedActorId: string, expiresAtMs: int)

  const MAX_ENTRIES := 1024
  const MAX_ANONYMOUS_ENTRIES := 256

  type Store = Entries<string, Entry>
  type Test = Entry -> bool

  predicate IsAnonymousActor(actorId: string) {
    actorId != "" && actorId[0] == '_'
  }

  const Anonymous: Test := (e: Entry) => IsAnonymousActor(e.allowedActorId)
  const Anyone: Test := (e: Entry) => true

  function Of(actorId: string): Test {
    (e: Entry) => e.allowedActorId == actorId
  }

  function Fresh(now: int): Test {
    (e: Entry) => e.expiresAtMs > now
  }

  function Not(p: Test): Test {
    (e: Entry) => !p(e)
  }

  /** The entries passing a test, in order. */
  function Only(s: Store, p: Test): (r: Store)
    ensures |r| <= |s|
  {
    if s == [] then []
    else (if p(s[0].1) then [s[0]] else []) + Only(s[1..], p)
  }

  function Count(s: Store, p: Test): nat {
    |Only(s, p)|
  }

  /** Place of the oldest entry passing a test, or -1. */
  function First(s: Store, p: Test): (i: int)
    ensures -1 <= i < |s|
    ensures i >= 0 ==> p(s[i].1) && Only(s[..i], p) == []
    ensures i < 0 <==> Only(s, p) == []
  {
    if s == [] then -1
    else if p(s[0].1) then 0
    else
      var i := First(s[1..], p);
      if i < 0 then -1
      else
        assert s[..i + 1][1..] == s[1..][..i];
        i + 1
  }

  function DropFirst(s: Store, p: Test): Store {
    if First(s, p) < 0 then s else RemoveAt(s, First(s, p))
  }

  /** The oldest entries passing a test go until at most `n` are left. */
  function KeepNewest(s: Store, p: Test, n: nat): (r: Store)
    decreases |s|
  {
    if Count(s, p) <= n then s else KeepNewest(DropFirst(s, p), p, n)
  }

  /** What `enforceCap` leaves for a mint by this actor: below its quota when it is
      anonymous, then below the cap, anonymous entries going first. */
  function UnderQuota(s: Store, actorId: string): Store {
    if IsAnonymousActor(actorId) then KeepNewest(s, Of(actorId), MAX_ANONYMOUS_ENTRIES - 1) else s
  }

  function UnderCap(s: Store): (r: Store)
    decreases |s|
  {
    if |s| < MAX_ENTRIES then s
    else if First(s, Anonymous) >= 0 then UnderCap(DropFirst(s, Anonymous))
    else UnderCap(s[1..])
  }

  function Minted(s: Store, token: string, plaintext: string, actorId: string, ttlMs: int, now: int): Store {
    Put(UnderCap(UnderQuota(Only(s, Fresh(now)), actorId)), token, Entry(plaintext, actorId, now + ttlMs))
  }

  function Redeemed(s: Store, token: string, actorId: string, now: int): Option<string> {
    if !Has(s, token) then None
    else
      var e := Get(s, token);
      if e.expiresAtMs <= now || e.allowedActorId != actorId then None else Some(e.plaintext)
  }

  /* ------------------------------------------------ the code, in its form */

  class TempRevealStore {
    var store: Store

    constructor ()
      ensures store == []
    {
      store := [];
    }

    method PruneExpired(now: int)
      modifies this
      ensures store == Only(old(store), Fresh(now))
    {
      var i := 0;
      while i < |store|
        invariant 0 <= i <= |store|
        invariant store[..i] + Only(store[i..], Fresh(now)) == Only(old(store), Fresh(now))
        decreases |store| - i
      {
        assert store[i..][1..] == store[i + 1..];
        if store[i].1.expiresAtMs <= now {
          ghost var before := store;
          store := RemoveAt(store, i);
          assert store[..i] == before[..i] && store[i..] == before[i + 1..];
        } else {
          assert store[..i + 1] == store[..i] + [store[i]];
          i := i + 1;
        }
      }
      assert store[..|store|] == store;
    }

    method EvictOldestWhere(pred: Test) returns (found: bool)
      modifies this
      ensures found == (First(old(store), pred) >= 0)
      ensures store == DropFirst(old(store), pred)
    {
      var i := 0;
      while i < |store|
        invariant 0 <= i <= |store| && store == old(store)
        invariant First(store, pred) == (if First(store[i..], pred) < 0 then -1 else First(store[i..], pred) + i)
      {
        assert store[i..][1..] == store[i + 1..];
        if pred(store[i].1) {
          store := RemoveAt(store, i);
          return true;
        }
        i := i + 1;
      }
      return false;
    }

    method EnforceCap(allowedActorId: string)
      modifies this
      ensures store == UnderCap(UnderQuota(old(store), allowedActorId))
    {
      if IsAnonymousActor(allowedActorId) {
        var same := Of(allowedActorId);
        var sameClass := 0;
        var i := 0;
        while i < |store|
          invariant 0 <= i <= |store| && store == old(store)
          invariant sameClass + Count(store[i..], same) == Count(store, same)
        {
          assert store[i..][1..] == store[i + 1..];
          if store[i].1.allowedActorId == allowedActorId { sameClass := sameClass + 1; }
          i := i + 1;
        }
        while sameClass >= MAX_ANONYMOUS_ENTRIES
          invariant sameClass == Count(store, same)
          invariant KeepNewest(store, same, MAX_ANONYMOUS_ENTRIES - 1) == UnderQuota(old(store), allowedActorId)
          decreases sameClass
        {
          DropFirstCounts(store, same);
          var found := EvictOldestWhere(same);
          if !found { break; }
          sameClass := sameClass - 1;
        }
      }
      while |store| >= MAX_ENTRIES
        invariant UnderCap(store) == UnderCap(UnderQuota(old(store), allowedActorId))
        decreases |store|
      {
        var found := EvictOldestWhere(Anonymous);
        if found { continue; }
        ghost var before := store;
        var some := EvictOldestWhere(Anyone);
        assert store == before[1..];
        if !some { break; }
      }
    }

    method MintLocal(token: string, plaintext: string, allowedActorId: string, ttlMs: int, now: int)
      modifies this
      ensures store == Minted(old(store), token, plaintext, allowedActorId, ttlMs, now)
    {
      PruneExpired(now);
      EnforceCap(allowedActorId);
      store := Put(store, token, Entry(plaintext, allowedActorId, now + ttlMs));
    }

    method RedeemLocal(token: string, actorId: string, now: int) returns (r: Option<string>)
      modifies this
      ensures r == Redeemed(old(store), token, actorId, now)
      ensures store == Delete(old(store), token)
    {
      if !Has(store, token) { return None; }
      var entry := Get(store, token);
      store := Delete(store, token);
      if entry.expiresAtMs <= now { return None; }
      if entry.allowedActorId != actorId { return None; }
      return Some(entry.plaintext);
    }
  }

  /* ---------------------------------------- what eviction keeps and drops */

  lemma {:induction false} OnlyConcat(a: Store, b: Store, p: Test)
    ensures Only(a + b, p) == Only(a, p) + Only(b, p)
  {
    if a == [] {
      assert a + b == b;
    } else {
      OnlyConcat(a[1..], b, p);
      assert (a + b)[1..] == a[1..] + b;
      var x := if p(a[0].1) then [a[0]] else [];
      calc {
        Only(a + b, p);
        x + Only(a[1..] + b, p);
        x + (Only(a[1..], p) + Only(b, p));
        (x + Only(a[1..], p)) + Only(b, p);
      }
    }
  }

  function If(b: bool, x: (string, Entry)): Store {
    if b then [x] else []
  }

  lemma OnlyCons(s: Store, p: Test)
    requires s != []
    ensures Only(s, p) == If(p(s[0].1), s[0]) + Only(s[1..], p)
  {}

  lemma OnlySplit(s: Store, i: nat, p: Test)
    requires i < |s|
    ensures Only(s, p) == Only(s[..i], p) + (If(p(s[i].1), s[i]) + Only(s[i + 1..], p))
  {
    hide *;
    var a, b := s[..i], s[i..];
    assert a + b == s;
    assert b[1..] == s[i + 1..];
    OnlyConcat(a, b, p);
    OnlyCons(b, p);
  }

  lemma OnlyRemoveAt(s: Store, i: nat, p: Test)
    requires i < |s|
    ensures Only(s, p) == Only(s[..i], p) + (If(p(s[i].1), s[i]) + Only(s[i + 1..], p))
    ensures Only(RemoveAt(s, i), p) == Only(s[..i], p) + Only(s[i + 1..], p)
    ensures Count(s, p) == Count(RemoveAt(s, i), p) + (if p(s[i].1) then 1 else 0)
  {
    hide Only;
    OnlySplit(s, i, p);
    OnlyConcat(s[..i], s[i + 1..], p);
    assert RemoveAt(s, i) == s[..i] + s[i + 1..];
  }

  lemma RemoveOldest(s: Store, i: nat, p: Test)
    requires i < |s| && p(s[i].1) && Only(s[..i], p) == []
    ensures Only(s, p) == [s[i]] + Only(RemoveAt(s, i), p)
    ensures Only(s, Not(p)) == Only(RemoveAt(s, i), Not(p))
  {
    hide Only, RemoveAt, Not, Count;
    OnlyRemoveAt(s, i, p);
    OnlyRemoveAt(s, i, Not(p));
    NotApplies(p, s[i].1);
    assert If(true, s[i]) == [s[i]] && If(false, s[i]) == [];
    hide If;
    var rest, others := Only(s[i + 1..], p), Only(s[i + 1..], Not(p));
    assert [] + ([s[i]] + rest) == [s[i]] + ([] + rest);
    assert [] + others == others;
  }

  lemma NotApplies(p: Test, e: Entry)
    ensures Not(p)(e) == !p(e)
  {}

  /** Evicting takes the oldest entry of the class and nothing else. */
  lemma DropFirstCounts(s: Store, p: Test)
    ensures Count(s, p) > 0 ==>
              Only(DropFirst(s, p), p) == Only(s, p)[1..] && |DropFirst(s, p)| == |s| - 1
    ensures Only(DropFirst(s, p), Not(p)) == Only(s, Not(p))
    ensures Count(s, p) == 0 ==> DropFirst(s, p) == s
  {
    hide Only;
    if First(s, p) >= 0 { RemoveOldest(s, First(s, p), p); }
  }

  /** The newest `n` of the class stay, in order, and so does everything else. */
  lemma {:induction false} KeepNewestKeeps(s: Store, p: Test, n: nat)
    ensures Only(KeepNewest(s, p, n), Not(p)) == Only(s, Not(p))
    ensures Only(KeepNewest(s, p, n), p) == Only(s, p)[if Count(s, p) <= n then 0 else Count(s, p) - n..]
    ensures |KeepNewest(s, p, n)| == |s| - (if Count(s, p) <= n then 0 else Count(s, p) - n)
    decreases |s|
  {
    hide Only, DropFirst;
    if Count(s, p) > n {
      DropFirstCounts(s, p);
      KeepNewestKeeps(DropFirst(s, p), p, n);
    }
  }

  ghost predicate Sub(a: Store, b: Store) {
    forall i :: 0 <= i < |a| ==> a[i] in b
  }

  lemma RemoveAtSub(s: Store, i: nat)
    requires i < |s|
    ensures Sub(RemoveAt(s, i), s)
  {}

  lemma {:induction false} KeepNewestSub(s: Store, p: Test, n: nat)
    ensures Sub(KeepNewest(s, p, n), s) && (Unique(s) ==> Unique(KeepNewest(s, p, n)))
    decreases |s|
  {
    if Count(s, p) > n {
      DropFirstCounts(s, p);
      RemoveAtSub(s, First(s, p));
      KeepNewestSub(DropFirst(s, p), p, n);
    }
  }

  lemma {:induction false} OnlySub(s: Store, p: Test)
    ensures forall x :: x in Only(s, p) <==> x in s && p(x.1)
    ensures Unique(s) ==> Unique(Only(s, p))
  {
    if s != [] {
      OnlySub(s[1..], p);
      assert s == [s[0]] + s[1..];
      if Unique(s) {
        forall i | 0 <= i < |Only(s[1..], p)| ensures Only(s[1..], p)[i].0 != s[0].0 {
          assert Only(s[1..], p)[i] in s[1..];
        }
      }
    }
  }

  /** Entries of a class never grow in number by evictions. */
  lemma {:induction false} UnderCapKeeps(s: Store, p: Test)
    ensures |UnderCap(s)| < MAX_ENTRIES && Sub(UnderCap(s), s)
    ensures Unique(s) ==> Unique(UnderCap(s))
    ensures Count(UnderCap(s), p) <= Count(s, p)
    decreases |s|
  {
    hide Count, Only, Unique, Sub, First;
    if |s| >= MAX_ENTRIES {
      var i := if First(s, Anonymous) >= 0 then First(s, Anonymous) else 0;
      assert s[1..] == RemoveAt(s, 0);
      RemovedKeeps(s, i, p);
      UnderCapKeeps(RemoveAt(s, i), p);
      SubOfSub(UnderCap(s), RemoveAt(s, i), s);
    } else {
      SubOfItself(s);
    }
  }

  lemma SubOfItself(s: Store)
    ensures Sub(s, s)
  {}

  lemma SubOfSub(a: Store, b: Store, c: Store)
    requires Sub(a, b) && Sub(b, c)
    ensures Sub(a, c)
  {}

  lemma RemovedKeeps(s: Store, i: nat, p: Test)
    requires i < |s|
    ensures Sub(RemoveAt(s, i), s) && (Unique(s) ==> Unique(RemoveAt(s, i))) && Count(RemoveAt(s, i), p) <= Count(s, p)
  {
    OnlyRemoveAt(s, i, p);
    RemoveAtSub(s, i);
  }

  /* -------------------------------------------------------------- over runs */

  datatype Op =
    | Mint(token: string, plaintext: string, actorId: string, ttlMs: int, now: int)
    | Redeem(token: string, actorId: string, now: int)

  function After(s: Store, op: Op): Store {
    match op
    case Mint(token, plaintext, actorId, ttlMs, now) => Minted(s, token, plaintext, actorId, ttlMs, now)
    case Redeem(token, _, _) => Delete(s, token)
  }

  function State(ops: seq<Op>): Store {
    if ops == [] then [] else After(State(ops[..|ops| - 1]), ops[|ops| - 1])
  }

  /** What the i-th operation of a run gave its caller. */
  function Yield(ops: seq<Op>, i: nat): Option<string>
    requires i < |ops|
  {
    if ops[i].Redeem? then Redeemed(State(ops[..i]), ops[i].token, ops[i].actorId, ops[i].now) else None
  }

  /** Tokens are 32 random bytes: no two mints share one. */
  ghost predicate FreshTokens(ops: seq<Op>) {
    forall i, j :: 0 <= i < j < |ops| && ops[i].Mint? && ops[j].Mint? ==> ops[i].token != ops[j].token
  }

  ghost predicate Bounded(s: Store) {
    Unique(s) && |s| <= MAX_ENTRIES &&
    forall a :: IsAnonymousActor(a) ==> Count(s, Of(a)) <= MAX_ANONYMOUS_ENTRIES
  }

  lemma {:induction false} OnlyOnly(s: Store, p: Test, q: Test)
    ensures Count(Only(s, q), p) <= Count(s, p)
  {
    if s != [] {
      OnlyOnly(s[1..], p, q);
      var r, t := Only(s, q), Only(s[1..], q);
      if q(s[0].1) {
        assert r == [s[0]] + t && r[1..] == t;
        assert Only(r, p) == (if p(s[0].1) then [s[0]] else []) + Only(t, p);
      } else {
        assert r == t;
      }
    }
  }

  lemma SubOne(s: Store, e: (string, Entry), p: Test)
    ensures Count(s + [e], p) == Count(s, p) + (if p(e.1) then 1 else 0)
  {
    OnlyConcat(s, [e], p);
    assert [e][1..] == [];
    assert Only([e], p) == (if p(e.1) then [e] else []) + Only([e][1..], p);
  }

  lemma ReplaceCounts(s: Store, i: nat, e: (string, Entry), p: Test)
    requires i < |s|
    ensures Count(s[i := e], p) <= Count(RemoveAt(s, i), p) + (if p(e.1) then 1 else 0)
  {
    var r := s[i := e];
    OnlyRemoveAt(r, i, p);
    OnlyRemoveAt(s, i, p);
    assert r[..i] == s[..i] && r[i + 1..] == s[i + 1..];
  }

  lemma PutCounts(s: Store, token: string, e: Entry, p: Test)
    ensures Count(Put(s, token, e), p) <= Count(s, p) + (if p(e) then 1 else 0)
  {
    var i := Place(s, token);
    if i >= 0 {
      ReplaceCounts(s, i, (token, e), p);
      OnlyRemoveAt(s, i, p);
    } else {
      SubOne(s, (token, e), p);
    }
  }

  lemma MintCounts(s: Store, op: Op, a: string)
    requires Bounded(s) && op.Mint? && IsAnonymousActor(a)
    ensures Count(After(s, op), Of(a)) <= MAX_ANONYMOUS_ENTRIES
  {
    hide Bounded, Put, UnderCap, UnderQuota, Only;
    var live := Only(s, Fresh(op.now));
    var q := UnderQuota(live, op.actorId);
    var e := Entry(op.plaintext, op.actorId, op.now + op.ttlMs);
    BoundedCount(s, a);
    OnlyOnly(s, Of(a), Fresh(op.now));
    QuotaCounts(live, op.actorId, a);
    UnderCapKeeps(q, Of(a));
    PutCounts(UnderCap(q), op.token, e, Of(a));
  }

  lemma BoundedCount(s: Store, a: string)
    requires Bounded(s) && IsAnonymousActor(a)
    ensures Count(s, Of(a)) <= MAX_ANONYMOUS_ENTRIES
  {}

  lemma MintBounded(s: Store, op: Op)
    requires Bounded(s) && op.Mint?
    ensures Bounded(After(s, op))
  {
    forall a | IsAnonymousActor(a) ensures Count(After(s, op), Of(a)) <= MAX_ANONYMOUS_ENTRIES {
      MintCounts(s, op, a);
    }
    MintSize(s, op);
  }

  lemma MintSize(s: Store, op: Op)
    requires Unique(s) && op.Mint?
    ensures Unique(After(s, op)) && |After(s, op)| <= MAX_ENTRIES
  {
    var live := Only(s, Fresh(op.now));
    OnlySub(s, Fresh(op.now));
    KeepNewestSub(live, Of(op.actorId), MAX_ANONYMOUS_ENTRIES - 1);
    UnderCapKeeps(UnderQuota(live, op.actorId), Anyone);
  }

  lemma QuotaCounts(s: Store, actorId: string, a: string)
    requires IsAnonymousActor(a)
    ensures Count(UnderQuota(s, actorId), Of(a)) <= Count(s, Of(a))
    ensures a == actorId ==> Count(UnderQuota(s, actorId), Of(a)) <= MAX_ANONYMOUS_ENTRIES - 1
  {
    if IsAnonymousActor(actorId) {
      KeepNewestKeeps(s, Of(actorId), MAX_ANONYMOUS_ENTRIES - 1);
      if a != actorId { KeepNewestOther(s, Of(actorId), MAX_ANONYMOUS_ENTRIES - 1, Of(a)); }
    }
  }

  lemma {:induction false} KeepNewestOther(s: Store, p: Test, n: nat, q: Test)
    ensures Count(KeepNewest(s, p, n), q) <= Count(s, q)
    decreases |s|
  {
    if Count(s, p) > n {
      DropFirstCounts(s, p);
      OnlyRemoveAt(s, First(s, p), q);
      KeepNewestOther(DropFirst(s, p), p, n, q);
    }
  }

  lemma DeleteBounded(s: Store, token: string)
    requires Bounded(s)
    ensures Bounded(Delete(s, token))
  {
    var i := Place(s, token);
    if i >= 0 {
      forall a | IsAnonymousActor(a) ensures Count(Delete(s, token), Of(a)) <= MAX_ANONYMOUS_ENTRIES {
        OnlyRemoveAt(s, i, Of(a));
      }
    }
  }

  /** After every run the map is within its cap and every anonymous actor within its quota. */
  lemma {:induction false} AlwaysBounded(ops: seq<Op>)
    ensures Bounded(State(ops))
  {
    if ops != [] {
      var before, op := ops[..|ops| - 1], ops[|ops| - 1];
      AlwaysBounded(before);
      if op.Mint? { MintBounded(State(before), op); } else { DeleteBounded(State(before), op.token); }
    }
  }

  /** An entry comes from the mint of its token. */
  predicate MintOf(op: Op, x: (string, Entry)) {
    op.Mint? && op.token == x.0 && x.1 == Entry(op.plaintext, op.actorId, op.now + op.ttlMs)
  }

  lemma SubHas(a: Store, b: Store, token: string)
    requires Sub(a, b) && !Has(b, token)
    ensures !Has(a, token)
  {
    HasIsMember(a, token);
    HasIsMember(b, token);
    forall i | 0 <= i < |a| ensures a[i].0 != token { assert a[i] in b; }
  }

  lemma RoomSub(s: Store, actorId: string, now: int)
    ensures Sub(UnderCap(UnderQuota(Only(s, Fresh(now)), actorId)), s)
    ensures forall x :: x in UnderCap(UnderQuota(Only(s, Fresh(now)), actorId)) ==> x.1.expiresAtMs > now
  {
    var live := Only(s, Fresh(now));
    OnlySub(s, Fresh(now));
    KeepNewestSub(live, Of(actorId), MAX_ANONYMOUS_ENTRIES - 1);
    UnderCapKeeps(UnderQuota(live, actorId), Anyone);
  }

  lemma DeleteSub(s: Store, token: string, x: (string, Entry))
    requires x in Delete(s, token)
    ensures x in s
    ensures Unique(s) ==> x.0 != token
  {
    var i := Place(s, token);
    if i >= 0 {
      var r := RemoveAt(s, i);
      var j :| 0 <= j < |r| && r[j] == x;
      assert x == s[if j < i then j else j + 1];
    }
  }

  lemma AfterComesFrom(s: Store, op: Op, x: (string, Entry))
    requires x in After(s, op)
    ensures x in s || MintOf(op, x)
    ensures op.Redeem? && Unique(s) ==> x.0 != op.token
  {
    hide *;
    if op.Mint? { MintComesFrom(s, op, x); } else { RedeemComesFrom(s, op, x); }
  }

  lemma MintComesFrom(s: Store, op: Op, x: (string, Entry))
    requires op.Mint? && x in After(s, op)
    ensures x in s || MintOf(op, x)
  {
    hide UnderCap, UnderQuota, Only, Put, Sub;
    var room := UnderCap(UnderQuota(Only(s, Fresh(op.now)), op.actorId));
    RoomSub(s, op.actorId, op.now);
    PutComesFrom(room, op.token, Entry(op.plaintext, op.actorId, op.now + op.ttlMs), x);
    SubMember(room, s, x);
  }

  lemma PutComesFrom(s: Store, token: string, e: Entry, x: (string, Entry))
    requires x in Put(s, token, e)
    ensures x in s || x == (token, e)
  {}

  lemma SubMember(a: Store, b: Store, x: (string, Entry))
    requires Sub(a, b)
    ensures x in a ==> x in b
  {}

  lemma RedeemComesFrom(s: Store, op: Op, x: (string, Entry))
    requires op.Redeem? && x in After(s, op)
    ensures x in s && (Unique(s) ==> x.0 != op.token)
  {
    hide Delete;
    DeleteSub(s, op.token, x);
  }

  lemma {:induction false} EntryFromMint(ops: seq<Op>, x: (string, Entry)) returns (m: nat)
    requires x in State(ops)
    ensures m < |ops| && MintOf(ops[m], x)
  {
    hide After;
    var before, op := ops[..|ops| - 1], ops[|ops| - 1];
    AfterComesFrom(State(before), op, x);
    if x in State(before) { m := EntryFromMint(before, x); } else { m := |ops| - 1; }
  }

  /** A token yields its plaintext only to the actor it was minted for and before the
      expiry its mint set. */
  lemma YieldIsAuthorised(ops: seq<Op>, i: nat) returns (m: nat)
    requires i < |ops| && Yield(ops, i).Some?
    ensures m < i && ops[m].Mint? && ops[m].token == ops[i].token
    ensures Yield(ops, i).value == ops[m].plaintext && ops[i].actorId == ops[m].actorId
    ensures ops[i].now < ops[m].now + ops[m].ttlMs
  {
    var s := State(ops[..i]);
    var e := s[Place(s, ops[i].token)];
    m := EntryFromMint(ops[..i], e);
  }

  lemma {:induction false} StaysAbsent(ops: seq<Op>, a: nat, b: nat, token: string)
    requires a <= b <= |ops| && !Has(State(ops[..a]), token)
    requires forall m :: a <= m < b && ops[m].Mint? ==> ops[m].token != token
    ensures !Has(State(ops[..b]), token)
    decreases b
  {
    hide After;
    if a < b {
      StaysAbsent(ops, a, b - 1, token);
      assert ops[..b][..b - 1] == ops[..b - 1];
      StaysAbsentStep(State(ops[..b - 1]), ops[b - 1], token);
    }
  }

  lemma StaysAbsentStep(s: Store, op: Op, token: string)
    requires !Has(s, token) && (op.Mint? ==> op.token != token)
    ensures !Has(After(s, op), token)
  {
    hide After;
    var s' := After(s, op);
    if Has(s', token) {
      AfterComesFrom(s, op, s'[Place(s', token)]);
    }
  }

  /** No token yields twice: any lookup burns it, whoever asked. */
  lemma SingleUse(ops: seq<Op>, i: nat, j: nat)
    requires FreshTokens(ops) && i < j < |ops|
    requires ops[i].Redeem? && ops[j].Redeem? && ops[i].token == ops[j].token
    requires Has(State(ops[..i]), ops[i].token)
    ensures Yield(ops, j).None?
  {
    hide State, After, Bounded, Redeemed, Delete;
    var t, s := ops[i].token, State(ops[..i]);
    var e := s[Place(s, t)];
    var m := EntryFromMint(ops[..i], e);
    assert ops[..i][m] == ops[m];
    BoundedUnique(ops[..i]);
    StateStep(ops, i);
    var s' := State(ops[..i + 1]);
    if Has(s', t) { AfterComesFrom(s, ops[i], s'[Place(s', t)]); }
    StaysAbsent(ops, i + 1, j, t);
    NothingRedeemed(State(ops[..j]), ops[j]);
  }

  lemma BoundedUnique(ops: seq<Op>)
    ensures Unique(State(ops))
  {
    hide State;
    AlwaysBounded(ops);
  }

  lemma StateStep(ops: seq<Op>, i: nat)
    requires i < |ops|
    ensures State(ops[..i + 1]) == After(State(ops[..i]), ops[i])
  {
    hide After;
    assert ops[..i + 1][..i] == ops[..i];
  }

  lemma NothingRedeemed(s: Store, op: Op)
    requires op.Redeem? && !Has(s, op.token)
    ensures Redeemed(s, op.token, op.actorId, op.now) == None
  {}

  /** The entry a mint stores. */
  function Stored(op: Op): (string, Entry)
    requires op.Mint?
  {
    (op.token, Entry(op.plaintext, op.actorId, op.now + op.ttlMs))
  }

  lemma MintStores(s: Store, op: Op)
    requires op.Mint?
    ensures Stored(op) in After(s, op)
  {
    hide UnderCap, UnderQuota, Only;
    var r := After(s, op);
    PutGet(UnderCap(UnderQuota(Only(s, Fresh(op.now)), op.actorId)), op.token, Stored(op).1, op.token);
    var i := Place(r, op.token);
    assert r[i] == Stored(op);
  }

  /** After a mint the map holds its entry and, of those before, only entries that live on. */
  lemma MintPrunes(s: Store, op: Op, x: (string, Entry))
    requires op.Mint? && x in After(s, op)
    ensures x == Stored(op) || (x in s && x.1.expiresAtMs > op.now)
  {
    hide UnderCap, UnderQuota, Only, Fresh;
    RoomSub(s, op.actorId, op.now);
    var room := UnderCap(UnderQuota(Only(s, Fresh(op.now)), op.actorId));
    if x != Stored(op) {
      var i :| 0 <= i < |After(s, op)| && After(s, op)[i] == x;
      assert room[i] == x;
    }
  }

  /** A live entry a mint pushes out of the map. */
  predicate Evicts(s: Store, op: Op, x: (string, Entry)) {
    op.Mint? && x in s && x.1.expiresAtMs > op.now && x !in After(s, op)
  }

  lemma OtherStays(s: Store, op: Op, x: (string, Entry))
    requires op.Redeem? && x in s && op.token != x.0
    ensures x in After(s, op)
  {
    var i := Place(s, op.token);
    if i >= 0 {
      var j :| 0 <= j < |s| && s[j] == x;
      var r := RemoveAt(s, i);
      assert r[if j < i then j else j - 1] == x;
    }
  }

  lemma {:induction false} EntryStays(ops: seq<Op>, m: nat, i: nat)
    requires m < i <= |ops| && ops[m].Mint?
    requires forall n :: m < n < i && ops[n].Redeem? ==> ops[n].token != ops[m].token
    requires forall n :: m < n < i && ops[n].Mint? ==> ops[n].now < ops[m].now + ops[m].ttlMs
    requires forall n :: m < n < i ==> !Evicts(State(ops[..n]), ops[n], Stored(ops[m]))
    ensures Stored(ops[m]) in State(ops[..i])
    decreases i
  {
    hide After, State;
    StateStep(ops, i - 1);
    if i == m + 1 {
      MintStores(State(ops[..m]), ops[m]);
    } else {
      EntryStays(ops, m, i - 1);
      if ops[i - 1].Redeem? { OtherStays(State(ops[..i - 1]), ops[i - 1], Stored(ops[m])); }
    }
  }

  /** A minted token that was not looked up, has not expired and was not evicted yields its
      plaintext to its actor. */
  lemma MintedYields(ops: seq<Op>, m: nat, i: nat)
    requires m < i < |ops| && ops[m].Mint? && ops[i].Redeem?
    requires ops[i].token == ops[m].token && ops[i].actorId == ops[m].actorId
    requires ops[i].now < ops[m].now + ops[m].ttlMs
    requires forall n :: m < n < i && ops[n].Redeem? ==> ops[n].token != ops[m].token
    requires forall n :: m < n < i && ops[n].Mint? ==> ops[n].now < ops[m].now + ops[m].ttlMs
    requires forall n :: m < n < i ==> !Evicts(State(ops[..n]), ops[n], Stored(ops[m]))
    ensures Yield(ops, i) == Some(ops[m].plaintext)
  {
    hide State, After;
    EntryStays(ops, m, i);
    BoundedUnique(ops[..i]);
    var s := State(ops[..i]);
    var j :| 0 <= j < |s| && s[j] == Stored(ops[m]);
    PlaceIs(s, j);
  }

  lemma FreshIsAbsent(ops: seq<Op>, n: nat)
    requires FreshTokens(ops) && n < |ops| && ops[n].Mint?
    ensures !Has(State(ops[..n]), ops[n].token)
  {
    hide State;
    var s := State(ops[..n]);
    if Has(s, ops[n].token) {
      var m := EntryFromMint(ops[..n], s[Place(s, ops[n].token)]);
    }
  }

  /** For a user-bound token, only a mint that finds the map full of user-bound entries, and
      this one the oldest, can take it away before it expires. */
  lemma UserMintYields(ops: seq<Op>, m: nat, i: nat)
    requires FreshTokens(ops) && m < i < |ops| && ops[m].Mint? && ops[i].Redeem?
    requires ops[i].token == ops[m].token && ops[i].actorId == ops[m].actorId && !IsAnonymousActor(ops[m].actorId)
    requires ops[i].now < ops[m].now + ops[m].ttlMs
    requires forall n :: m < n < i && ops[n].Redeem? ==> ops[n].token != ops[m].token
    requires forall n :: m < n < i && ops[n].Mint? ==> ops[n].now < ops[m].now + ops[m].ttlMs
    requires forall n :: m < n < i && ops[n].Mint? ==>
               var live := Only(State(ops[..n]), Fresh(ops[n].now));
               !(|live| == MAX_ENTRIES && Count(live, Anonymous) == 0 && live[0] == Stored(ops[m]))
    ensures Yield(ops, i) == Some(ops[m].plaintext)
  {
    hide State, After, Only, Count;
    forall n | m < n < i ensures !Evicts(State(ops[..n]), ops[n], Stored(ops[m])) {
      if Evicts(State(ops[..n]), ops[n], Stored(ops[m])) {
        AlwaysBounded(ops[..n]);
        FreshIsAbsent(ops, n);
        UserEntriesEvictedOnlyWhenFull(State(ops[..n]), ops[n], Stored(ops[m]));
      }
    }
    MintedYields(ops, m, i);
  }

  /* -------------------------------------------------- who evicts whom */

  /** A mint evicts a live user-bound secret exactly when the map is full of
      user-bound ones, and then it is the oldest; an anonymous mint does so too. */
  lemma UserEntriesEvictedOnlyWhenFull(s: Store, op: Op, x: (string, Entry))
    requires Bounded(s) && op.Mint? && !Has(s, op.token)
    requires x in s && x.1.expiresAtMs > op.now && !IsAnonymousActor(x.1.allowedActorId)
    ensures x !in After(s, op) <==>
            var live := Only(s, Fresh(op.now));
            |live| == MAX_ENTRIES && Count(live, Anonymous) == 0 && x == live[0]
  {
    var live := Only(s, Fresh(op.now));
    var q := UnderQuota(live, op.actorId);
    OnlySub(s, Fresh(op.now));
    QuotaKeepsUsers(live, op.actorId, x);
    CapTakesOne(q, x);
    var r := UnderCap(q);
    RoomSub(s, op.actorId, op.now);
    SubHas(r, s, op.token);
    assert After(s, op) == r + [(op.token, Entry(op.plaintext, op.actorId, op.now + op.ttlMs))];
    var i :| 0 <= i < |s| && s[i] == x;
    HasIsMember(s, op.token);
    assert x.0 != op.token;
  }

  lemma QuotaKeepsUsers(s: Store, actorId: string, x: (string, Entry))
    requires Unique(s) && |s| <= MAX_ENTRIES && !IsAnonymousActor(x.1.allowedActorId) && x in s
    ensures var q := UnderQuota(s, actorId);
            x in q && Sub(q, s) && Unique(q) && |q| <= |s| && (Count(s, Anonymous) == 0 ==> q == s) &&
            (|q| == MAX_ENTRIES ==> q == s)
  {
    hide Only;
    var p := Of(actorId);
    if IsAnonymousActor(actorId) {
      var q := KeepNewest(s, p, MAX_ANONYMOUS_ENTRIES - 1);
      KeepNewestKeeps(s, p, MAX_ANONYMOUS_ENTRIES - 1);
      KeepNewestSub(s, p, MAX_ANONYMOUS_ENTRIES - 1);
      OnlySub(s, Not(p));
      OnlySub(q, Not(p));
      assert Not(p)(x.1);
      assert x in Only(s, Not(p));
      NoneOf(s, actorId);
    }
  }

  lemma NoneOf(s: Store, actorId: string)
    requires IsAnonymousActor(actorId)
    ensures Count(s, Anonymous) == 0 ==> Count(s, Of(actorId)) == 0
  {
    OnlySub(s, Anonymous);
    OnlySub(s, Of(actorId));
    if Count(s, Of(actorId)) > 0 {
      var x := Only(s, Of(actorId))[0];
      assert x in Only(s, Of(actorId));
      assert x in Only(s, Anonymous);
    }
  }

  lemma CapTakesOne(s: Store, x: (string, Entry))
    requires Unique(s) && |s| <= MAX_ENTRIES && x in s && !IsAnonymousActor(x.1.allowedActorId)
    ensures x !in UnderCap(s) <==> |s| == MAX_ENTRIES && Count(s, Anonymous) == 0 && x == s[0]
  {
    if |s| == MAX_ENTRIES {
      var i := if First(s, Anonymous) >= 0 then First(s, Anonymous) else 0;
      assert s[1..] == RemoveAt(s, 0);
      assert UnderCap(s) == UnderCap(RemoveAt(s, i)) == RemoveAt(s, i);
      RemoveAtMember(s, i, x);
    }
  }

  lemma RemoveAtMember(s: Store, i: nat, x: (string, Entry))
    requires Unique(s) && i < |s| && x in s
    ensures x in RemoveAt(s, i) <==> x != s[i]
  {
    var r := RemoveAt(s, i);
    var j :| 0 <= j < |s| && s[j] == x;
    if j < i { assert r[j] == x; }
    if j > i { assert r[j - 1] == x; }
  }

  /* ------------------------------- an anonymous mint into a map full of users */

  /** As many live secrets of one user as the map holds. */
  function FullOfUsers(): (s: Store)
    ensures |s| == MAX_ENTRIES
  {
    seq(MAX_ENTRIES, i requires 0 <= i < MAX_ENTRIES => (Text.ToDec(i), Entry("p", "user", 10)))
  }

  lemma UsersAreUnique()
    ensures Unique(FullOfUsers())
  {
    hide Text.ToDec;
    var s := FullOfUsers();
    forall i, j | 0 <= i < j < |s| ensures s[i].0 != s[j].0 {
      if s[i].0 == s[j].0 { Text.ToDecInjective(i, j); }
    }
  }

  lemma NoSuchUser()
    ensures !Has(FullOfUsers(), "new")
  {
    hide Text.ToDec;
    HasIsMember(FullOfUsers(), "new");
    assert !Text.AllDigits("new") by { assert !Text.IsDigit("new"[0]); }
  }

  lemma NoneAnonymous(a: string)
    ensures IsAnonymousActor(a) ==> Count(FullOfUsers(), Of(a)) == 0
    ensures Count(FullOfUsers(), Anonymous) == 0 && Only(FullOfUsers(), Fresh(0)) == FullOfUsers()
  {
    hide Only, Text.ToDec;
    if IsAnonymousActor(a) { NonePass(FullOfUsers(), Of(a)); }
    NonePass(FullOfUsers(), Anonymous);
    AllPass(FullOfUsers(), Fresh(0));
  }

  /** An anonymous mint evicts the oldest of them. */
  lemma AnonymousEvictsUser()
    ensures var s, op := FullOfUsers(), Mint("new", "x", "_login", 5, 0);
            Bounded(s) && s[0] in s && !IsAnonymousActor(s[0].1.allowedActorId) && s[0] !in After(s, op)
  {
    hide Text.ToDec, After, Count, Only, Of, Fresh, Has;
    var s, op := FullOfUsers(), Mint("new", "x", "_login", 5, 0);
    UsersAreUnique();
    NoSuchUser();
    forall a | IsAnonymousActor(a) ensures Count(s, Of(a)) <= MAX_ANONYMOUS_ENTRIES { NoneAnonymous(a); }
    NoneAnonymous("");
    UserEntriesEvictedOnlyWhenFull(s, op, s[0]);
  }

  lemma {:induction false} NonePass(s: Store, p: Test)
    requires forall i :: 0 <= i < |s| ==> !p(s[i].1)
    ensures Only(s, p) == []
  {
    if s != [] {
      OnlyCons(s, p);
      NonePass(s[1..], p);
    }
  }

  lemma {:induction false} AllPass(s: Store, p: Test)
    requires forall i :: 0 <= i < |s| ==> p(s[i].1)
    ensures Only(s, p) == s
  {
    if s != [] {
      OnlyCons(s, p);
      AllPass(s[1..], p);
      assert s == [s[0]] + s[1..];
    }
  }
}
