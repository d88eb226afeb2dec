/**
 * The registry of sleeping tickers behind the executor's `sleepers` mutex.
 * A sleeping ticker has a non-zero id; it is unnotified while an entry with
 * its id and waker is in `wakers`, and notified once that entry is gone.
 * Ids of tickers that stopped sleeping are kept in `freeIds` for reuse.
 */
module ExecutorSleepers {
  import opened Wrappers

  /** A `Waker`, known only by its identity. */
  type Waker = nat

  /** One `(usize, Waker)` pair of `Sleepers::wakers`. */
  datatype SleeperEntry = SleeperEntry(id: nat, waker: Waker)

  /** The ids that have an entry in `ws`. */
  function Ids(ws: seq<SleeperEntry>): set<nat> {
    set i | 0 <= i < |ws| :: ws[i].id
  }

  /** No id has two entries. */
  predicate DistinctIds(ws: seq<SleeperEntry>) {
    forall i, j :: 0 <= i < j < |ws| ==> ws[i].id != ws[j].id
  }

  predicate DistinctNats(s: seq<nat>) {
    forall i, j :: 0 <= i < j < |s| ==> s[i] != s[j]
  }

  /** Every id in `s` lies in 1..n. */
  predicate InRange(s: set<nat>, n: nat) {
    forall id :: id in s ==> 1 <= id <= n
  }

  /**
   * The registry's invariant.  With N = `count + freeIds.len()`, the
   * `count` sleeping ids and the reclaimed ids lie in 1..N, no id is both,
   * and none is reclaimed twice; every entry of `wakers` belongs to a
   * sleeping id, and no id has two entries.
   */
  predicate SleepersInv(count: nat, wakers: seq<SleeperEntry>, freeIds: seq<nat>, sleeping: set<nat>) {
    && |sleeping| == count
    && InRange(sleeping, count + |freeIds|)
    && (forall i :: 0 <= i < |freeIds| ==> 1 <= freeIds[i] <= count + |freeIds| && freeIds[i] !in sleeping)
    && DistinctNats(freeIds)
    && DistinctIds(wakers)
    && Ids(wakers) <= sleeping
  }

  /** `Sleepers::is_notified`: no ticker sleeps, or fewer entries remain than sleepers. */
  function IsNotified(count: nat, wakers: seq<SleeperEntry>): bool {
    count == 0 || count > |wakers|
  }

  /** The id `insert` hands out: the last reclaimed one, else `count + 1`. */
  function NextId(count: nat, freeIds: seq<nat>): nat {
    if |freeIds| > 0 then freeIds[|freeIds| - 1] else count + 1
  }

  /** Entries with distinct ids number exactly as many as their ids. */
  lemma {:induction false} DistinctIdsCount(ws: seq<SleeperEntry>)
    requires DistinctIds(ws)
    ensures |Ids(ws)| == |ws|
  {
    if |ws| > 0 {
      var init := ws[..|ws| - 1];
      var last := ws[|ws| - 1].id;
      assert DistinctIds(init);
      DistinctIdsCount(init);
      assert Ids(ws) == Ids(init) + {last} by {
        forall id | id in Ids(ws) ensures id in Ids(init) + {last} {
          var i :| 0 <= i < |ws| && ws[i].id == id;
          if i < |init| { assert init[i].id == id; }
        }
        forall id | id in Ids(init) ensures id in Ids(ws) {
          var i :| 0 <= i < |init| && init[i].id == id;
          assert ws[i].id == id;
        }
      }
      assert forall i :: 0 <= i < |init| ==> init[i].id != last;
    }
  }

  /** An element of `a` outside `b`, when `a` is not a subset of `b`. */
  lemma NotSubsetWitness(a: set<nat>, b: set<nat>) returns (x: nat)
    requires !(a <= b)
    ensures x in a && x !in b
  {
    x :| x in a && x !in b;
  }

  /** A subset is no larger than its superset, and a proper subset is smaller. */
  lemma {:induction false} SubsetCard(a: set<nat>, b: set<nat>)
    requires a <= b
    ensures |a| <= |b|
    ensures a < b ==> |a| < |b|
    decreases |b|
  {
    if b != {} {
      var x :| x in b;
      SubsetCard(a - {x}, b - {x});
      assert |b - {x}| == |b| - 1;
      if x in a {
        assert |a - {x}| == |a| - 1;
        if a < b {
          var y := NotSubsetWitness(b, a);
          assert y in (b - {x}) - (a - {x});
        }
      } else {
        assert a - {x} == a;
      }
    }
  }

  /** Under the invariant there are never more unnotified entries than sleepers. */
  lemma WakersBounded(count: nat, wakers: seq<SleeperEntry>, freeIds: seq<nat>, sleeping: set<nat>)
    requires SleepersInv(count, wakers, freeIds, sleeping)
    ensures |wakers| <= count
  {
    DistinctIdsCount(wakers);
    SubsetCard(Ids(wakers), sleeping);
  }

  /**
   * The fast-path test `count == 0 || count > wakers.len()` means what its
   * documentation says: some sleeping ticker has no waker entry (it was
   * notified), or no ticker sleeps.
   */
  lemma IsNotifiedMeaning(count: nat, wakers: seq<SleeperEntry>, freeIds: seq<nat>, sleeping: set<nat>)
    requires SleepersInv(count, wakers, freeIds, sleeping)
    ensures IsNotified(count, wakers) <==> count == 0 || exists id :: id in sleeping && id !in Ids(wakers)
  {
    DistinctIdsCount(wakers);
    SubsetCard(Ids(wakers), sleeping);
    if count > |wakers| {
      assert |Ids(wakers)| < |sleeping|;
      assert sleeping <= Ids(wakers) ==> sleeping == Ids(wakers);
      var id := NotSubsetWitness(sleeping, Ids(wakers));
    }
  }

  /** The ids from 1 to n. */
  function IdRange(n: nat): (r: set<nat>)
    ensures forall id :: id in r <==> 1 <= id <= n
    ensures |r| == n
  {
    if n == 0 then {} else IdRange(n - 1) + {n}
  }

  /** The reclaimed ids as a set. */
  function FreeSet(freeIds: seq<nat>): set<nat> {
    set i | 0 <= i < |freeIds| :: freeIds[i]
  }

  /** Distinct reclaimed ids number exactly as many as their set. */
  lemma {:induction false} DistinctNatsCount(s: seq<nat>)
    requires DistinctNats(s)
    ensures |FreeSet(s)| == |s|
  {
    if |s| > 0 {
      var init := s[..|s| - 1];
      assert DistinctNats(init);
      DistinctNatsCount(init);
      assert FreeSet(s) == FreeSet(init) + {s[|s| - 1]} by {
        assert forall i :: 0 <= i < |init| ==> init[i] == s[i];
        assert s == init + [s[|s| - 1]];
      }
      assert forall i :: 0 <= i < |init| ==> init[i] != s[|s| - 1];
    }
  }

  /**
   * Under the invariant the sleeping ids and the reclaimed ids together are
   * exactly 1..N, where N = `count + freeIds.len()`: no id is lost.
   */
  lemma IdsCoverRange(count: nat, wakers: seq<SleeperEntry>, freeIds: seq<nat>, sleeping: set<nat>)
    requires SleepersInv(count, wakers, freeIds, sleeping)
    ensures sleeping + FreeSet(freeIds) == IdRange(count + |freeIds|)
  {
    var n := count + |freeIds|;
    var all := sleeping + FreeSet(freeIds);
    DistinctNatsCount(freeIds);
    assert sleeping * FreeSet(freeIds) == {};
    assert |all| == n;
    assert all <= IdRange(n);
    SubsetCard(all, IdRange(n));
  }

  /** The id `insert` hands out is non-zero, no sleeping ticker holds it, and it lies in 1..N+1. */
  lemma NextIdIsFresh(count: nat, wakers: seq<SleeperEntry>, freeIds: seq<nat>, sleeping: set<nat>)
    requires SleepersInv(count, wakers, freeIds, sleeping)
    ensures NextId(count, freeIds) != 0
    ensures NextId(count, freeIds) !in sleeping
  {
  }

  /** Inserting with `NextId` keeps the invariant. */
  lemma InsertKeepsInv(count: nat, wakers: seq<SleeperEntry>, freeIds: seq<nat>, sleeping: set<nat>, waker: Waker)
    requires SleepersInv(count, wakers, freeIds, sleeping)
    ensures
      var id := NextId(count, freeIds);
      var freeIds' := if |freeIds| > 0 then freeIds[..|freeIds| - 1] else freeIds;
      SleepersInv(count + 1, wakers + [SleeperEntry(id, waker)], freeIds', sleeping + {id})
  {
    var id := NextId(count, freeIds);
    AppendKeepsDistinct(wakers, id, waker);
    if |freeIds| > 0 {
      var freeIds' := freeIds[..|freeIds| - 1];
      assert forall i :: 0 <= i < |freeIds'| ==> freeIds'[i] == freeIds[i] && freeIds[i] != id;
    }
  }

  /** `Sleepers`: the number of sleeping tickers, the unnotified ones' wakers and the reclaimed ids. */
  class Sleepers {
    var count: nat
    var wakers: seq<SleeperEntry>
    var freeIds: seq<nat>
    /** The ids of the tickers currently sleeping. */
    ghost var sleeping: set<nat>

    ghost predicate Valid()
      reads this
    {
      SleepersInv(count, wakers, freeIds, sleeping)
    }

    /** `Sleepers::is_notified`. */
    function IsNotifiedNow(): bool
      reads this
    {
      IsNotified(count, wakers)
    }

    /** The registry of a new executor: nobody sleeps. */
    constructor ()
      ensures Valid()
      ensures count == 0 && wakers == [] && freeIds == [] && sleeping == {}
    {
      count, wakers, freeIds, sleeping := 0, [], [], {};
    }

    /**
     * `insert`: registers a new sleeping, unnotified ticker under a reused
     * id, else under `count + 1`; the id is non-zero and was not in use.
     */
    method Insert(waker: Waker) returns (id: nat)
      requires Valid()
      modifies this
      ensures Valid()
      ensures id == NextId(old(count), old(freeIds))
      ensures id != 0 && id !in old(sleeping)
      ensures count == old(count) + 1
      ensures wakers == old(wakers) + [SleeperEntry(id, waker)]
      ensures freeIds == if |old(freeIds)| > 0 then old(freeIds)[..|old(freeIds)| - 1] else old(freeIds)
      ensures sleeping == old(sleeping) + {id}
    {
      NextIdIsFresh(count, wakers, freeIds, sleeping);
      InsertKeepsInv(count, wakers, freeIds, sleeping, waker);
      if |freeIds| > 0 {
        id := freeIds[|freeIds| - 1];
        freeIds := freeIds[..|freeIds| - 1];
      } else {
        id := count + 1;
      }
      count := count + 1;
      wakers := wakers + [SleeperEntry(id, waker)];
      sleeping := sleeping + {id};
    }

    /**
     * `update`: a sleeping ticker that still has an entry gets its waker
     * replaced and is reported unnotified; one that was notified is
     * registered again and reported notified.
     */
    method Update(id: nat, waker: Waker) returns (notified: bool)
      requires Valid() && id in sleeping
      modifies this`wakers
      ensures Valid()
      ensures notified == (id !in Ids(old(wakers)))
      ensures notified ==> wakers == old(wakers) + [SleeperEntry(id, waker)]
      ensures !notified ==> exists i :: 0 <= i < |old(wakers)| && old(wakers)[i].id == id
                                    && wakers == old(wakers)[i := SleeperEntry(id, waker)]
    {
      var i := 0;
      while i < |wakers|
        invariant 0 <= i <= |wakers| && wakers == old(wakers)
        invariant forall j :: 0 <= j < i ==> wakers[j].id != id
      {
        if wakers[i].id == id {
          ReplaceKeepsIds(wakers, i, waker);
          wakers := wakers[i := SleeperEntry(id, waker)];
          return false;
        }
        i := i + 1;
      }
      AppendKeepsDistinct(wakers, id, waker);
      wakers := wakers + [SleeperEntry(id, waker)];
      return true;
    }

    /**
     * `remove`: a ticker stops sleeping; its id is reclaimed, its entry (if
     * any) deleted, and it is reported notified exactly when it had none.
     */
    method Remove(id: nat) returns (notified: bool)
      requires Valid() && id in sleeping
      modifies this
      ensures Valid()
      ensures count == old(count) - 1
      ensures freeIds == old(freeIds) + [id]
      ensures sleeping == old(sleeping) - {id}
      ensures notified == (id !in Ids(old(wakers)))
      ensures notified ==> wakers == old(wakers)
      ensures !notified ==> exists i :: 0 <= i < |old(wakers)| && old(wakers)[i].id == id
                                    && wakers == old(wakers)[..i] + old(wakers)[i + 1..]
      ensures wakers == Without(old(wakers), id)
    {
      WakersBounded(count, wakers, freeIds, sleeping);
      count := count - 1;
      freeIds := freeIds + [id];
      sleeping := sleeping - {id};
      var i := |wakers|;
      while i > 0
        invariant 0 <= i <= |wakers| && wakers == old(wakers)
        invariant count == old(count) - 1 && freeIds == old(freeIds) + [id] && sleeping == old(sleeping) - {id}
        invariant forall j :: i <= j < |wakers| ==> wakers[j].id != id
      {
        i := i - 1;
        if wakers[i].id == id {
          DeleteEntry(wakers, i, sleeping);
          WithoutDeletes(wakers, i);
          wakers := wakers[..i] + wakers[i + 1..];
          RemoveKeepsInv(old(count), old(wakers), wakers, old(freeIds), old(sleeping), id);
          return false;
        }
      }
      assert id !in Ids(wakers);
      WithoutAbsent(wakers, id);
      RemoveKeepsInv(old(count), old(wakers), wakers, old(freeIds), old(sleeping), id);
      return true;
    }

    /**
     * `notify`: when every sleeping ticker is unnotified (and one sleeps),
     * the most recently registered is notified and its waker returned;
     * otherwise nothing changes.  Afterwards some ticker is notified or
     * none sleeps.
     */
    method Notify() returns (w: Option<Waker>)
      requires Valid()
      modifies this`wakers
      ensures Valid()
      ensures IsNotifiedNow()
      ensures w.Some? <==> |old(wakers)| == old(count) && old(count) > 0
      ensures w.Some? ==> (w.value == old(wakers)[|old(wakers)| - 1].waker
                           && wakers == old(wakers)[..|old(wakers)| - 1])
      ensures w.None? ==> wakers == old(wakers)
    {
      WakersBounded(count, wakers, freeIds, sleeping);
      if |wakers| == count && |wakers| > 0 {
        w := Some(wakers[|wakers| - 1].waker);
        DropLastKeepsIds(wakers);
        wakers := wakers[..|wakers| - 1];
      } else {
        w := None;
      }
    }
  }

  /** Replacing the waker of an entry keeps its id. */
  lemma ReplaceKeepsIds(ws: seq<SleeperEntry>, i: nat, waker: Waker)
    requires i < |ws|
    ensures Ids(ws[i := SleeperEntry(ws[i].id, waker)]) == Ids(ws)
    ensures DistinctIds(ws) ==> DistinctIds(ws[i := SleeperEntry(ws[i].id, waker)])
  {
    var ws' := ws[i := SleeperEntry(ws[i].id, waker)];
    assert forall j :: 0 <= j < |ws| ==> ws'[j].id == ws[j].id;
  }

  /** Appending an entry for a new id keeps the ids distinct and adds that id. */
  lemma AppendKeepsDistinct(ws: seq<SleeperEntry>, id: nat, waker: Waker)
    requires DistinctIds(ws) && id !in Ids(ws)
    ensures DistinctIds(ws + [SleeperEntry(id, waker)])
    ensures Ids(ws + [SleeperEntry(id, waker)]) == Ids(ws) + {id}
  {
    var ws' := ws + [SleeperEntry(id, waker)];
    assert forall j :: 0 <= j < |ws| ==> ws'[j] == ws[j];
    assert ws'[|ws|].id == id;
    forall i, j | 0 <= i < j < |ws'|
      ensures ws'[i].id != ws'[j].id
    {
      if j == |ws| {
        assert ws[i].id in Ids(ws);
      }
    }
  }

  /** Dropping the last entry keeps the other ids distinct and no new id appears. */
  lemma DropLastKeepsIds(ws: seq<SleeperEntry>)
    requires |ws| > 0
    ensures Ids(ws[..|ws| - 1]) <= Ids(ws)
    ensures DistinctIds(ws) ==> DistinctIds(ws[..|ws| - 1])
  {
    var init := ws[..|ws| - 1];
    assert forall j :: 0 <= j < |init| ==> init[j] == ws[j];
  }

  /** Deleting the entry of `ws[i].id` leaves the other ids, in a registry with distinct ids. */
  lemma DeleteEntry(ws: seq<SleeperEntry>, i: nat, rest: set<nat>)
    requires i < |ws| && DistinctIds(ws) && Ids(ws) <= rest + {ws[i].id}
    ensures DistinctIds(ws[..i] + ws[i + 1..])
    ensures Ids(ws[..i] + ws[i + 1..]) <= rest - {ws[i].id}
  {
    var ws' := ws[..i] + ws[i + 1..];
    assert forall j :: 0 <= j < |ws'| ==> ws'[j] == ws[if j < i then j else j + 1];
    forall id | id in Ids(ws') ensures id in rest - {ws[i].id} {
      var j :| 0 <= j < |ws'| && ws'[j].id == id;
      assert ws[if j < i then j else j + 1].id == id;
      assert id in Ids(ws);
    }
  }

  /** The registry with every entry of `id` taken out, the others in their order. */
  function Without(ws: seq<SleeperEntry>, id: nat): seq<SleeperEntry> {
    if ws == [] then []
    else Without(ws[..|ws| - 1], id) + (if ws[|ws| - 1].id == id then [] else [ws[|ws| - 1]])
  }

  /** Taking out `id` keeps exactly the entries of the other ids. */
  lemma {:induction false} WithoutKeepsOthers(ws: seq<SleeperEntry>, id: nat)
    ensures forall e :: e in Without(ws, id) <==> e in ws && e.id != id
  {
    if ws != [] {
      WithoutKeepsOthers(ws[..|ws| - 1], id);
      assert ws == ws[..|ws| - 1] + [ws[|ws| - 1]];
    }
  }

  /** Taking out an id that has no entry changes nothing. */
  lemma {:induction false} WithoutAbsent(ws: seq<SleeperEntry>, id: nat)
    requires id !in Ids(ws)
    ensures Without(ws, id) == ws
  {
    if ws != [] {
      var init, last := ws[..|ws| - 1], ws[|ws| - 1];
      assert id !in Ids(init) by {
        forall j | 0 <= j < |init| ensures init[j].id != id {
          assert init[j] == ws[j] && ws[j].id in Ids(ws);
        }
      }
      WithoutAbsent(init, id);
      assert last.id != id by {
        assert last.id in Ids(ws);
      }
      assert ws == init + [last];
    }
  }

  /** In a registry with distinct ids, taking out `ws[i].id` deletes exactly entry i. */
  lemma {:induction false} WithoutDeletes(ws: seq<SleeperEntry>, i: nat)
    requires i < |ws| && DistinctIds(ws)
    ensures Without(ws, ws[i].id) == ws[..i] + ws[i + 1..]
  {
    var init, last, id := ws[..|ws| - 1], ws[|ws| - 1], ws[i].id;
    assert forall j :: 0 <= j < |init| ==> init[j] == ws[j];
    if i == |ws| - 1 {
      assert id !in Ids(init) by {
        forall j | 0 <= j < |init| ensures init[j].id != id {
          assert ws[j].id != ws[i].id;
        }
      }
      WithoutAbsent(init, id);
      assert ws[..i] + ws[i + 1..] == init;
    } else {
      assert last.id != id;
      assert Without(ws, id) == Without(init, id) + [last];
      assert DistinctIds(init);
      WithoutDeletes(init, i);
      assert init[i] == ws[i];
      assert init[..i] == ws[..i];
      assert init[i + 1..] + [last] == ws[i + 1..];
    }
  }

  /** Removing a sleeping id and reclaiming it keeps the invariant, once its entry is gone. */
  lemma RemoveKeepsInv(count: nat, wakers: seq<SleeperEntry>, wakers': seq<SleeperEntry>, freeIds: seq<nat>, sleeping: set<nat>, id: nat)
    requires SleepersInv(count, wakers, freeIds, sleeping) && id in sleeping
    requires DistinctIds(wakers') && Ids(wakers') <= sleeping - {id}
    ensures count > 0
    ensures SleepersInv(count - 1, wakers', freeIds + [id], sleeping - {id})
  {
    var freeIds' := freeIds + [id];
    assert forall i :: 0 <= i < |freeIds| ==> freeIds'[i] == freeIds[i];
  }
}
