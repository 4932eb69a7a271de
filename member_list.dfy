/**
 * The membership list and the rules that change it: lookup by (id, port),
 * insertion of unknown members, the heartbeat merge rule, the eviction sweep,
 * and the two filters that pick which entries are gossiped and whom to gossip to.
 *
 * These are the specification functions of the node's list operations; the
 * node's methods are proved to compute them.
 */
module MemberList {
  import opened Bytes
  import opened Addresses
  import opened Codec

  /** (id, port) identify a member; timestamp is the round in which it was last refreshed. */
  datatype MemberListEntry = MemberListEntry(id: int32, port: int16, heartbeat: int64, timestamp: int)

  predicate HasKey(e: MemberListEntry, id: int32, port: int16)
  {
    e.id == id && e.port == port
  }

  predicate SameKey(a: MemberListEntry, b: MemberListEntry)
  {
    a.id == b.id && a.port == b.port
  }

  /** No two entries share an (id, port) key. */
  ghost predicate UniqueKeys(list: seq<MemberListEntry>)
  {
    forall i, j :: 0 <= i < j < |list| ==> !SameKey(list[i], list[j])
  }

  /** Position of the first entry with the key, or |list| when there is none. */
  function IndexOf(list: seq<MemberListEntry>, id: int32, port: int16): (k: nat)
    ensures k <= |list|
    ensures k < |list| ==> HasKey(list[k], id, port)
    ensures forall j :: 0 <= j < k ==> !HasKey(list[j], id, port)
  {
    if list == [] then 0
    else if HasKey(list[0], id, port) then 0
    else 1 + IndexOf(list[1..], id, port)
  }

  /** `findMemberEntry`: whether some entry has the key. */
  function FindMemberEntry(list: seq<MemberListEntry>, id: int32, port: int16): (found: bool)
    ensures found <==> exists j :: 0 <= j < |list| && HasKey(list[j], id, port)
  {
    IndexOf(list, id, port) < |list|
  }

  /** `addMemberEntry`: append an entry stamped with `now`, unless the key is known. */
  function AddEntry(list: seq<MemberListEntry>, id: int32, port: int16, heartbeat: int64, now: int)
    : seq<MemberListEntry>
  {
    if FindMemberEntry(list, id, port) then list
    else list + [MemberListEntry(id, port, heartbeat, now)]
  }

  /**
   * `updateMemberEntry`: on the first entry with the key, take a strictly
   * greater heartbeat and refresh the timestamp; with no such entry, add one.
   */
  function UpdateEntry(list: seq<MemberListEntry>, id: int32, port: int16, heartbeat: int64, now: int)
    : seq<MemberListEntry>
  {
    var k := IndexOf(list, id, port);
    if k < |list| then
      if heartbeat > list[k].heartbeat then list[k := list[k].(heartbeat := heartbeat, timestamp := now)]
      else list
    else AddEntry(list, id, port, heartbeat, now)
  }

  /** The tuples of a JOINREP, each passed to `addMemberEntry` in order. */
  function AddAll(list: seq<MemberListEntry>, ts: seq<MemberTuple>, now: int): seq<MemberListEntry>
  {
    if ts == [] then list
    else
      var t := ts[|ts| - 1];
      AddEntry(AddAll(list, ts[..|ts| - 1], now), t.id, t.port, t.heartbeat, now)
  }

  /** The tuples of a GOSSIP, each passed to `updateMemberEntry` in order. */
  function UpdateAll(list: seq<MemberListEntry>, ts: seq<MemberTuple>, now: int): seq<MemberListEntry>
  {
    if ts == [] then list
    else
      var t := ts[|ts| - 1];
      UpdateEntry(UpdateAll(list, ts[..|ts| - 1], now), t.id, t.port, t.heartbeat, now)
  }

  /** The sweep's removal test: more than tRemove rounds since the last refresh. */
  predicate Expired(e: MemberListEntry, now: int, tRemove: int)
  {
    now - tRemove > e.timestamp
  }

  /** The list after the eviction sweep: the entries that have not expired, in order. */
  function Evict(list: seq<MemberListEntry>, now: int, tRemove: int): seq<MemberListEntry>
  {
    if list == [] then []
    else
      var e := list[|list| - 1];
      Evict(list[..|list| - 1], now, tRemove) + (if Expired(e, now, tRemove) then [] else [e])
  }

  function ToTuple(e: MemberListEntry): MemberTuple
  {
    MemberTuple(e.id, e.port, e.heartbeat)
  }

  /** The encoder's filter: entries refreshed within the last tFail rounds. */
  predicate Fresh(e: MemberListEntry, now: int, tFail: int)
  {
    now - tFail <= e.timestamp
  }

  /** The tuples written after the sender's own in a JOINREP or GOSSIP. */
  function FreshTuples(list: seq<MemberListEntry>, now: int, tFail: int): (ts: seq<MemberTuple>)
    ensures |ts| <= |list|
  {
    if list == [] then []
    else
      var e := list[|list| - 1];
      FreshTuples(list[..|list| - 1], now, tFail) + (if Fresh(e, now, tFail) then [ToTuple(e)] else [])
  }

  /** The gossip recipients: entries whose timestamp is not the current round. */
  function GossipTargets(list: seq<MemberListEntry>, now: int): (targets: seq<Address>)
    ensures |targets| <= |list|
  {
    if list == [] then []
    else
      var e := list[|list| - 1];
      GossipTargets(list[..|list| - 1], now)
        + (if e.timestamp != now then [MakeAddress(e.id, e.port)] else [])
  }

  // ---------------------------------------------------------------- one entry further

  // Extending the scanned prefix by one entry extends each filter by at most that entry.

  lemma FreshTuplesSnoc(list: seq<MemberListEntry>, i: nat, now: int, tFail: int)
    requires i < |list|
    ensures FreshTuples(list[..i + 1], now, tFail)
         == FreshTuples(list[..i], now, tFail) + (if Fresh(list[i], now, tFail) then [ToTuple(list[i])] else [])
  {
    assert list[..i + 1][..i] == list[..i];
  }

  lemma GossipTargetsSnoc(list: seq<MemberListEntry>, i: nat, now: int)
    requires i < |list|
    ensures GossipTargets(list[..i + 1], now)
         == GossipTargets(list[..i], now) + (if list[i].timestamp != now then [MakeAddress(list[i].id, list[i].port)] else [])
  {
    assert list[..i + 1][..i] == list[..i];
  }

  lemma EvictSnoc(list: seq<MemberListEntry>, i: nat, now: int, tRemove: int)
    requires i < |list|
    ensures Evict(list[..i + 1], now, tRemove)
         == Evict(list[..i], now, tRemove) + (if Expired(list[i], now, tRemove) then [] else [list[i]])
  {
    assert list[..i + 1][..i] == list[..i];
  }

  /**
   * One step of the in-place eviction sweep. Midway, the list is the
   * survivors of the entries scanned so far followed by the entries not yet
   * scanned; erasing the next entry when it has expired, or stepping over it
   * otherwise, keeps it so with one more entry scanned.
   */
  lemma EvictSweepStep(list: seq<MemberListEntry>, j: nat, now: int, tRemove: int, cur: seq<MemberListEntry>)
    requires j < |list|
    requires cur == Evict(list[..j], now, tRemove) + list[j..]
    ensures var i := |Evict(list[..j], now, tRemove)|;
            && i < |cur| && cur[i] == list[j]
            && (Expired(list[j], now, tRemove) ==>
                  && cur[..i] + cur[i + 1..] == Evict(list[..j + 1], now, tRemove) + list[j + 1..]
                  && |Evict(list[..j + 1], now, tRemove)| == i)
            && (!Expired(list[j], now, tRemove) ==>
                  && cur == Evict(list[..j + 1], now, tRemove) + list[j + 1..]
                  && |Evict(list[..j + 1], now, tRemove)| == i + 1)
  {
    var done := Evict(list[..j], now, tRemove);
    EvictSnoc(list, j, now, tRemove);
    assert list[j..] == [list[j]] + list[j + 1..];
    if Expired(list[j], now, tRemove) {
      assert cur[..|done|] == done;
      assert cur[|done| + 1..] == list[j + 1..];
      AppendNil(done);
    } else {
      AppendAssoc(done, [list[j]], list[j + 1..]);
    }
  }

  // ---------------------------------------------------------------- lookup

  /** With unique keys, any entry carrying the key is the one the lookup finds. */
  lemma IndexOfUnique(list: seq<MemberListEntry>, id: int32, port: int16, j: nat)
    requires UniqueKeys(list)
    requires j < |list| && HasKey(list[j], id, port)
    ensures IndexOf(list, id, port) == j
  {
    var k := IndexOf(list, id, port);
    if k < j {
      assert SameKey(list[k], list[j]);
    }
  }

  // ---------------------------------------------------------------- addMemberEntry

  /**
   * `addMemberEntry` appends exactly one entry, stamped with `now`, when the key
   * is absent, and otherwise leaves the list as it was (a known member's
   * heartbeat is not updated). Either way the key is then present and keys stay
   * unique; adding the same member again changes nothing.
   */
  lemma AddEntryProperties(list: seq<MemberListEntry>, id: int32, port: int16, heartbeat: int64, now: int)
    requires UniqueKeys(list)
    ensures var r := AddEntry(list, id, port, heartbeat, now);
            && (FindMemberEntry(list, id, port) ==> r == list)
            && (!FindMemberEntry(list, id, port) ==>
                  r == list + [MemberListEntry(id, port, heartbeat, now)])
            && FindMemberEntry(r, id, port)
            && UniqueKeys(r)
            && AddEntry(r, id, port, heartbeat, now) == r
  {
    var r := AddEntry(list, id, port, heartbeat, now);
    assert HasKey(r[IndexOf(r, id, port)], id, port) by {
      if !FindMemberEntry(list, id, port) {
        assert HasKey(r[|list|], id, port);
      }
    }
  }

  // ---------------------------------------------------------------- updateMemberEntry

  /**
   * The merge rule on a known member: a strictly greater heartbeat replaces
   * the stored one and refreshes the timestamp to `now`; an equal or smaller
   * one leaves the whole list unchanged.
   */
  lemma UpdateEntryKnown(list: seq<MemberListEntry>, id: int32, port: int16, heartbeat: int64, now: int, j: nat)
    requires UniqueKeys(list)
    requires j < |list| && HasKey(list[j], id, port)
    ensures heartbeat > list[j].heartbeat ==>
              UpdateEntry(list, id, port, heartbeat, now)
                == list[j := MemberListEntry(id, port, heartbeat, now)]
    ensures heartbeat <= list[j].heartbeat ==> UpdateEntry(list, id, port, heartbeat, now) == list
  {
    IndexOfUnique(list, id, port, j);
  }

  /** The merge rule on an unknown member falls back to insertion. */
  lemma UpdateEntryUnknown(list: seq<MemberListEntry>, id: int32, port: int16, heartbeat: int64, now: int)
    requires !FindMemberEntry(list, id, port)
    ensures UpdateEntry(list, id, port, heartbeat, now) == list + [MemberListEntry(id, port, heartbeat, now)]
  {
  }

  /**
   * The merge rule never lowers a heartbeat: every old entry keeps its
   * position and key, with a heartbeat at least as large, and changes only to
   * take the new heartbeat at `now`. At most one entry is appended, and the
   * merged member then has a heartbeat no smaller than the one offered.
   */
  lemma UpdateEntryMonotone(list: seq<MemberListEntry>, id: int32, port: int16, heartbeat: int64, now: int)
    ensures var r := UpdateEntry(list, id, port, heartbeat, now);
            && |list| <= |r| <= |list| + 1
            && (forall j :: 0 <= j < |list| ==>
                  SameKey(r[j], list[j]) && r[j].heartbeat >= list[j].heartbeat
                  && (r[j] != list[j] ==>
                        HasKey(list[j], id, port) && r[j].heartbeat == heartbeat
                        && heartbeat > list[j].heartbeat && r[j].timestamp == now))
            && (|r| > |list| ==> r == list + [MemberListEntry(id, port, heartbeat, now)])
            && (exists j :: 0 <= j < |r| && HasKey(r[j], id, port) && r[j].heartbeat >= heartbeat)
  {
    var r := UpdateEntry(list, id, port, heartbeat, now);
    var k := IndexOf(list, id, port);
    if k < |list| {
      assert HasKey(r[k], id, port) && r[k].heartbeat >= heartbeat;
    } else {
      assert HasKey(r[|list|], id, port);
    }
  }

  lemma UpdateEntryPreservesUnique(list: seq<MemberListEntry>, id: int32, port: int16, heartbeat: int64, now: int)
    requires UniqueKeys(list)
    ensures UniqueKeys(UpdateEntry(list, id, port, heartbeat, now))
  {
    var r := UpdateEntry(list, id, port, heartbeat, now);
    UpdateEntryMonotone(list, id, port, heartbeat, now);
    forall i, j | 0 <= i < j < |r| ensures !SameKey(r[i], r[j]) {
      if j == |list| {
        assert !FindMemberEntry(list, id, port);
        assert !HasKey(list[i], id, port);
      }
    }
  }

  /** An offered (id, port, heartbeat) that the list already knows of with a heartbeat as large. */
  ghost predicate Covers(list: seq<MemberListEntry>, t: MemberTuple)
  {
    exists j :: 0 <= j < |list| && HasKey(list[j], t.id, t.port) && list[j].heartbeat >= t.heartbeat
  }

  /** Merging what the list already covers changes nothing. */
  lemma UpdateEntryCovered(list: seq<MemberListEntry>, t: MemberTuple, now: int)
    requires UniqueKeys(list) && Covers(list, t)
    ensures UpdateEntry(list, t.id, t.port, t.heartbeat, now) == list
  {
    var j :| 0 <= j < |list| && HasKey(list[j], t.id, t.port) && list[j].heartbeat >= t.heartbeat;
    UpdateEntryKnown(list, t.id, t.port, t.heartbeat, now, j);
  }

  /** Merging the same (id, port, heartbeat) twice is the same as merging it once. */
  lemma UpdateEntryIdempotent(list: seq<MemberListEntry>, id: int32, port: int16, heartbeat: int64, now: int)
    requires UniqueKeys(list)
    ensures var r := UpdateEntry(list, id, port, heartbeat, now);
            UpdateEntry(r, id, port, heartbeat, now) == r
  {
    UpdateEntryMonotone(list, id, port, heartbeat, now);
    UpdateEntryPreservesUnique(list, id, port, heartbeat, now);
    UpdateEntryCovered(UpdateEntry(list, id, port, heartbeat, now), MemberTuple(id, port, heartbeat), now);
  }

  // ---------------------------------------------------------------- merging a whole message

  /**
   * Merging a GOSSIP keeps keys unique, never lowers a heartbeat of an entry
   * already present, and leaves the list covering every tuple it carried.
   */
  lemma {:induction false} UpdateAllMonotone(list: seq<MemberListEntry>, ts: seq<MemberTuple>, now: int)
    requires UniqueKeys(list)
    ensures var r := UpdateAll(list, ts, now);
            && UniqueKeys(r)
            && |list| <= |r|
            && (forall j :: 0 <= j < |list| ==> SameKey(r[j], list[j]) && r[j].heartbeat >= list[j].heartbeat)
            && (forall i :: 0 <= i < |ts| ==> Covers(r, ts[i]))
  {
    if ts != [] {
      var init, t := ts[..|ts| - 1], ts[|ts| - 1];
      var m := UpdateAll(list, init, now);
      UpdateAllMonotone(list, init, now);
      UpdateEntryMonotone(m, t.id, t.port, t.heartbeat, now);
      UpdateEntryPreservesUnique(m, t.id, t.port, t.heartbeat, now);
      var r := UpdateEntry(m, t.id, t.port, t.heartbeat, now);
      forall i | 0 <= i < |ts| ensures Covers(r, ts[i]) {
        if i < |ts| - 1 {
          assert ts[i] == init[i];
          var j :| 0 <= j < |m| && HasKey(m[j], ts[i].id, ts[i].port) && m[j].heartbeat >= ts[i].heartbeat;
          assert HasKey(r[j], ts[i].id, ts[i].port) && r[j].heartbeat >= ts[i].heartbeat;
        }
      }
    }
  }

  lemma {:induction false} UpdateAllCovered(list: seq<MemberListEntry>, ts: seq<MemberTuple>, now: int)
    requires UniqueKeys(list)
    requires forall i :: 0 <= i < |ts| ==> Covers(list, ts[i])
    ensures UpdateAll(list, ts, now) == list
  {
    if ts != [] {
      var init := ts[..|ts| - 1];
      assert forall i :: 0 <= i < |init| ==> init[i] == ts[i];
      UpdateAllCovered(list, init, now);
      UpdateEntryCovered(list, ts[|ts| - 1], now);
    }
  }

  /** Receiving the same GOSSIP twice in one round leaves the list as receiving it once. */
  lemma UpdateAllIdempotent(list: seq<MemberListEntry>, ts: seq<MemberTuple>, now: int)
    requires UniqueKeys(list)
    ensures UpdateAll(UpdateAll(list, ts, now), ts, now) == UpdateAll(list, ts, now)
  {
    UpdateAllMonotone(list, ts, now);
    UpdateAllCovered(UpdateAll(list, ts, now), ts, now);
  }

  /**
   * Merging a JOINREP keeps every existing entry exactly as it was (the list
   * only grows at the end) and keeps keys unique.
   */
  lemma {:induction false} AddAllExtends(list: seq<MemberListEntry>, ts: seq<MemberTuple>, now: int)
    requires UniqueKeys(list)
    ensures var r := AddAll(list, ts, now);
            UniqueKeys(r) && |list| <= |r| && r[..|list|] == list
  {
    if ts != [] {
      var init, t := ts[..|ts| - 1], ts[|ts| - 1];
      var m := AddAll(list, init, now);
      AddAllExtends(list, init, now);
      AddEntryProperties(m, t.id, t.port, t.heartbeat, now);
      var r := AddEntry(m, t.id, t.port, t.heartbeat, now);
      assert r[..|m|] == m;
      assert r[..|list|] == m[..|list|];
    }
  }

  /** After merging a JOINREP, every member it lists is known. */
  lemma {:induction false} AddAllContains(list: seq<MemberListEntry>, ts: seq<MemberTuple>, now: int)
    requires UniqueKeys(list)
    ensures forall i :: 0 <= i < |ts| ==> FindMemberEntry(AddAll(list, ts, now), ts[i].id, ts[i].port)
  {
    if ts != [] {
      var init, t := ts[..|ts| - 1], ts[|ts| - 1];
      var m := AddAll(list, init, now);
      AddAllContains(list, init, now);
      AddAllExtends(list, init, now);
      AddEntryProperties(m, t.id, t.port, t.heartbeat, now);
      var r := AddEntry(m, t.id, t.port, t.heartbeat, now);
      assert r[..|m|] == m;
      forall i | 0 <= i < |ts| ensures FindMemberEntry(r, ts[i].id, ts[i].port) {
        if i < |ts| - 1 {
          assert ts[i] == init[i];
          var j :| 0 <= j < |m| && HasKey(m[j], ts[i].id, ts[i].port);
          assert r[j] == m[j];
        }
      }
    }
  }

  // ---------------------------------------------------------------- eviction

  /**
   * An entry survives the sweep exactly when it was in the list and has not
   * expired; survivors keep all their fields.
   */
  lemma {:induction false} EvictMembership(list: seq<MemberListEntry>, now: int, tRemove: int, e: MemberListEntry)
    ensures e in Evict(list, now, tRemove) <==> e in list && !Expired(e, now, tRemove)
  {
    if list != [] {
      var init := list[..|list| - 1];
      EvictMembership(init, now, tRemove, e);
      assert list == init + [list[|list| - 1]];
    }
  }

  /** The sweep keeps the survivors' relative order: it distributes over concatenation. */
  lemma {:induction false} EvictConcat(a: seq<MemberListEntry>, b: seq<MemberListEntry>, now: int, tRemove: int)
    ensures Evict(a + b, now, tRemove) == Evict(a, now, tRemove) + Evict(b, now, tRemove)
  {
    if b == [] {
      assert a + b == a;
    } else {
      var init := b[..|b| - 1];
      EvictConcat(a, init, now, tRemove);
      assert (a + b)[..|a + b| - 1] == a + init;
    }
  }

  lemma {:induction false} EvictPreservesUnique(list: seq<MemberListEntry>, now: int, tRemove: int)
    requires UniqueKeys(list)
    ensures UniqueKeys(Evict(list, now, tRemove))
  {
    if list != [] {
      var init, e := list[..|list| - 1], list[|list| - 1];
      EvictPreservesUnique(init, now, tRemove);
      var p := Evict(init, now, tRemove);
      var r := Evict(list, now, tRemove);
      forall i, j | 0 <= i < j < |r| ensures !SameKey(r[i], r[j]) {
        if j == |p| {
          EvictMembership(init, now, tRemove, r[i]);
          var k :| 0 <= k < |init| && init[k] == r[i];
          assert !SameKey(list[k], list[|list| - 1]);
        }
      }
    }
  }

  // ---------------------------------------------------------------- the two filters

  /** A tuple is written after the sender's own exactly when it comes from a fresh entry. */
  lemma {:induction false} FreshTuplesMembership(list: seq<MemberListEntry>, now: int, tFail: int, t: MemberTuple)
    ensures t in FreshTuples(list, now, tFail) <==>
            exists e :: e in list && Fresh(e, now, tFail) && ToTuple(e) == t
  {
    if list != [] {
      var init, last := list[..|list| - 1], list[|list| - 1];
      FreshTuplesMembership(init, now, tFail, t);
      assert list == init + [last];
      if t in FreshTuples(list, now, tFail) && t !in FreshTuples(init, now, tFail) {
        assert Fresh(last, now, tFail) && ToTuple(last) == t;
      }
    }
  }

  /** A member is gossiped to exactly when one of its entries is not stamped with `now`. */
  lemma {:induction false} GossipTargetsMembership(list: seq<MemberListEntry>, now: int, a: Address)
    ensures a in GossipTargets(list, now) <==>
            exists e :: e in list && e.timestamp != now && MakeAddress(e.id, e.port) == a
  {
    if list != [] {
      var init, last := list[..|list| - 1], list[|list| - 1];
      GossipTargetsMembership(init, now, a);
      assert list == init + [last];
      if a in GossipTargets(list, now) && a !in GossipTargets(init, now) {
        assert last.timestamp != now && MakeAddress(last.id, last.port) == a;
      }
    }
  }

  /**
   * The two filters differ: in a list with unique keys, an entry refreshed in
   * the current round is written into every member list message (when
   * tFail >= 0) but its member is not sent a GOSSIP.
   */
  lemma FiltersDiffer(list: seq<MemberListEntry>, e: MemberListEntry, now: int, tFail: int)
    requires UniqueKeys(list) && e in list
    requires tFail >= 0 && e.timestamp == now
    ensures ToTuple(e) in FreshTuples(list, now, tFail)
    ensures MakeAddress(e.id, e.port) !in GossipTargets(list, now)
  {
    FreshTuplesMembership(list, now, tFail, ToTuple(e));
    GossipTargetsMembership(list, now, MakeAddress(e.id, e.port));
    GetMakeAddress(e.id, e.port);
    forall d | d in list && d.timestamp != now
      ensures MakeAddress(d.id, d.port) != MakeAddress(e.id, e.port)
    {
      GetMakeAddress(d.id, d.port);
      var i :| 0 <= i < |list| && list[i] == d;
      var j :| 0 <= j < |list| && list[j] == e;
      assert i != j;
      assert !SameKey(list[i], list[j]);
    }
  }
}
