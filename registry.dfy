/** The shared alarm list of New_Alarm_Cond.c and the operations the main
    thread and the alarm (dispatcher) thread perform on it. Each method is one
    critical section of the source, taken as atomic. */
module AlarmRegistry {
  import opened AlarmList

  class Registry {
    /** The entries between `head` and `tail`, in link order. */
    var list: seq<Alarm>
    /** Entries the dispatcher has spliced out, by identity. A display thread
        still holds a pointer to such an entry and reads its `linked` field. */
    var unlinked: map<int, Alarm>
    /** Identities handed out so far: every entry ever allocated has a smaller one. */
    var nextId: nat
    /** Identities of the entries whose `new` flag the dispatcher has cleared. */
    ghost var claimed: set<int>

    ghost predicate Valid()
      reads this
    {
      Consistent(list, unlinked, nextId, claimed)
    }

    /** `head->link = tail`: the empty list. */
    constructor ()
      ensures Valid()
      ensures list == [] && unlinked == map[] && nextId == 0 && claimed == {}
    {
      list := [];
      unlinked := map[];
      nextId := 0;
      claimed := {};
    }

    /** The walk from `head->link` to `tail` that stops at the first entry
        meeting `c`; |list| stands for reaching `tail`. */
    method Scan(c: Criterion) returns (i: nat)
      ensures i <= |list|
      ensures forall j :: 0 <= j < i ==> !Matches(list[j], c)
      ensures i < |list| ==> Matches(list[i], c)
    {
      i := 0;
      while i < |list|
        invariant i <= |list|
        invariant forall j :: 0 <= j < i ==> !Matches(list[j], c)
      {
        if Matches(list[i], c) {
          return;
        }
        i := i + 1;
      }
    }

    /** 1 exactly when an entry of this number and kind is linked, else 0. */
    method Search(num: int, kind: Kind) returns (flag: int)
      ensures flag == 1 <==> Has(list, num, kind)
      ensures flag == 0 <==> !Has(list, num, kind)
    {
      var i := Scan(SameEntry(num, kind));
      assert i == First(list, SameEntry(num, kind));
      FirstSameEntry(list, num, kind);
      flag := if i < |list| then 1 else 0;
    }

    /** searchAlarmA: is a standard alarm with this number linked? */
    method SearchA(num: int) returns (flag: int)
      ensures flag == (if Has(list, num, Standard) then 1 else 0)
    {
      flag := Search(num, Standard);
    }

    /** searchAlarmB: is a cancel request for this number linked? */
    method SearchB(num: int) returns (flag: int)
      ensures flag == (if Has(list, num, Cancel) then 1 else 0)
    {
      flag := Search(num, Cancel);
    }

    /** replaceAlarmA: the first linked standard alarm with the request's
        number takes the request's message, time and seconds and is marked
        modified; nothing is linked or unlinked. */
    method ReplaceA(req: Alarm)
      requires Valid()
      modifies this
      ensures Valid()
      ensures list == Replaced(old(list), req) && SameSkeleton(old(list), list)
      ensures unlinked == old(unlinked) && nextId == old(nextId) && claimed == old(claimed)
    {
      var k := Scan(SameEntry(req.alarmNum, Standard));
      assert k == First(list, SameEntry(req.alarmNum, Standard));
      if k < |list| {
        list := list[k := Overwrite(list[k], req)];
      }
      SkeletonKeepsWellFormed(old(list), list);
    }

    /** alarm_insert, called by main with the write lock held. The request is
        a freshly allocated entry whose `new` flag main has set. */
    method Insert(req: Alarm) returns (ev: Event)
      requires Valid() && req.id >= nextId && req.isNew
      modifies this
      ensures Valid()
      ensures (ev, list) == Inserted(old(list), req)
      ensures unlinked == old(unlinked) && claimed == old(claimed) && nextId == req.id + 1
    {
      var num := req.alarmNum;
      ghost var s := list;
      var flagA := SearchA(num);
      if req.kind == Standard {
        if flagA == 1 {
          ev := ReplacementReceived(num, req.message);
          ReplaceA(req);
        } else {
          ev := FirstRequestReceived(num, req.message);
          var p := Scan(AtLeast(num));
          assert p == First(s, AtLeast(num));
          // p == |list| is the `next == tail` case: link in front of tail.
          list := Splice(list, p, req.(linked := true));
        }
      } else if flagA == 0 {
        ev := NothingToCancel(num);
      } else {
        var flagB := SearchB(num);
        if flagB == 1 {
          ev := MoreThanOneCancel(num);
        } else {
          ev := CancelReceived(num, req.message);
          var p := Scan(AtLeast(num));
          assert p == First(s, AtLeast(num));
          if p < |list| {
            list := Splice(list, p, req.(linked := true));
          }
        }
      }
      InsertedConsistent(s, req, unlinked, nextId, claimed);
      nextId := req.id + 1;
    }

    /** The part of main that follows a successful parse: allocate an entry,
        initialise it (new = 1, modified = 0, cancel defaults) and insert it. */
    method Submit(cmd: Command, now: int) returns (ev: Event)
      requires Valid()
      modifies this
      ensures Valid()
      ensures (ev, list) == Inserted(old(list), MakeRequest(old(nextId), cmd, now))
      ensures unlinked == old(unlinked) && claimed == old(claimed) && nextId == old(nextId) + 1
    {
      var req := MakeRequest(nextId, cmd, now);
      ev := Insert(req);
    }

    /** The dispatcher's scan: clear `new` on the first entry that has it and
        return that entry; with no such entry, change nothing. An entry is
        claimed at most once: its identity was not claimed before. */
    method Claim() returns (alarm: Option<Alarm>)
      requires Valid()
      modifies this
      ensures Valid()
      ensures var k := First(old(list), Unclaimed);
        if k == |old(list)| then
          alarm == None && list == old(list) && claimed == old(claimed)
        else
          list == ClaimAt(old(list), k) && alarm == Some(list[k]) &&
          old(list)[k].id !in old(claimed) && claimed == old(claimed) + {old(list)[k].id}
      ensures unlinked == old(unlinked) && nextId == old(nextId)
    {
      var k := Scan(Unclaimed);
      assert k == First(list, Unclaimed);
      if k < |list| {
        claimed := claimed + {list[k].id};
        list := ClaimAt(list, k);
        alarm := Some(list[k]);
        ClaimedConsistent(old(list), k, unlinked, nextId, old(claimed));
      } else {
        alarm := None;
      }
    }

    /** The writer section of the dispatcher for a claimed cancel: unlink the
        cancel entry by identity, then the first entry carrying its number,
        clearing `linked` on both. */
    method RemovePair(id: int)
      requires Valid()
      requires exists i :: 0 <= i < |list| && list[i].id == id && list[i].kind == Cancel
      modifies this
      ensures Valid()
      ensures list == PairRemoved(old(list), id)
      ensures var c := First(old(list), WithId(id));
        var s1 := Without(old(list), c);
        var k := First(s1, Numbered(old(list)[c].alarmNum));
        k < |s1| &&
        unlinked == old(unlinked)[id := old(list)[c].(linked := false)][s1[k].id := s1[k].(linked := false)] &&
        Lookup(id) == Some(old(list)[c].(linked := false)) &&
        Lookup(s1[k].id) == Some(s1[k].(linked := false))
      ensures nextId == old(nextId) && claimed == old(claimed)
    {
      ghost var s := list;
      var c := Scan(WithId(id));
      assert c == First(s, WithId(id));
      var cancel := list[c];
      list := Without(list, c);
      unlinked := unlinked[cancel.id := cancel.(linked := false)];
      var k := Scan(Numbered(cancel.alarmNum));
      assert k == First(list, Numbered(cancel.alarmNum));
      ghost var s1 := list;
      if k < |list| {
        var std := list[k];
        list := Without(list, k);
        unlinked := unlinked[std.id := std.(linked := false)];
      }
      RemovedConsistent(s, id, old(unlinked), nextId, claimed);
      NotLinked(list, unlinked, nextId, claimed, id);
      NotLinked(list, unlinked, nextId, claimed, s1[k].id);
    }

    /** One pass of alarm_thread's loop. A claimed standard alarm gets its
        display thread; a claimed cancel removes itself and its alarm, both
        left readable with linked = 0 by the display thread of that alarm. */
    method DispatchStep() returns (events: seq<Event>)
      requires Valid()
      modifies this
      ensures Valid()
      ensures var k := First(old(list), Unclaimed);
        if k == |old(list)| then
          events == [] && list == old(list) && unlinked == old(unlinked) && claimed == old(claimed)
        else
          var e := old(list)[k];
          e.id !in old(claimed) && claimed == old(claimed) + {e.id} &&
          if e.kind == Standard then
            events == [RequestProcessed(e.alarmNum, e.message), NotifierStarted(e.id)] &&
            list == ClaimAt(old(list), k) && unlinked == old(unlinked)
          else
            var s1 := Without(old(list), k);
            var j := First(s1, Numbered(e.alarmNum));
            j < |s1| &&
            events == [RequestProcessed(e.alarmNum, e.message)] &&
            list == Without(s1, j) &&
            unlinked == old(unlinked)[e.id := e.(isNew := false, linked := false)][s1[j].id := s1[j].(linked := false)] &&
            Lookup(e.id) == Some(e.(isNew := false, linked := false)) &&
            Lookup(s1[j].id) == Some(s1[j].(linked := false))
      ensures nextId == old(nextId)
    {
      ghost var s := list;
      ghost var k := First(s, Unclaimed);
      var alarm := Claim();
      if alarm.Some? && alarm.value.kind == Standard {
        events := [RequestProcessed(alarm.value.alarmNum, alarm.value.message), NotifierStarted(alarm.value.id)];
      } else if alarm.Some? {
        assert First(list, WithId(alarm.value.id)) == k by {
          ClaimedFoundById(list, k);
        }
        assert Without(list, k) == Without(s, k);
        RemovePair(alarm.value.id);
        events := [RequestProcessed(alarm.value.alarmNum, alarm.value.message)];
      } else {
        events := [];
      }
    }

    /** What a display thread reads through the pointer it was started with. */
    function Lookup(id: int): (r: Option<Alarm>)
      reads this
      ensures Valid() && r.Some? ==>
        r.value.id == id && (r.value.linked <==> exists i :: 0 <= i < |list| && list[i].id == id)
    {
      var i := First(list, WithId(id));
      if i < |list| then Some(list[i])
      else if id in unlinked then Some(unlinked[id])
      else None
    }
  }

  /** The registry invariant: the list invariants, every identity handed out
      before `nextId`, an entry is either linked or unlinked, unlinked entries
      have linked = 0, and the `new` flag of a linked entry is set exactly
      when the dispatcher has not claimed it. */
  ghost predicate Consistent(list: seq<Alarm>, unlinked: map<int, Alarm>, nextId: nat, claimed: set<int>) {
    WellFormed(list) && Tracked(list, unlinked, nextId, claimed) &&
    (forall id :: id in unlinked ==> id < nextId && unlinked[id].id == id && !unlinked[id].linked) &&
    (forall id :: id in claimed ==> id < nextId)
  }

  /** Every entry of `s` has an identity below `bound`, is not in the
      unlinked map, and has `new` set exactly when it was never claimed. */
  ghost predicate Tracked(s: seq<Alarm>, unlinked: map<int, Alarm>, bound: int, claimed: set<int>) {
    forall e :: e in s ==> e.id < bound && e.id !in unlinked && (e.isNew <==> e.id !in claimed)
  }

  /** Replacement keeps every identity and `new` flag, so it keeps Tracked. */
  lemma {:induction false} ReplacedTracked(s: seq<Alarm>, req: Alarm, unlinked: map<int, Alarm>, bound: int, claimed: set<int>)
    requires Tracked(s, unlinked, bound, claimed)
    ensures Tracked(Replaced(s, req), unlinked, bound, claimed)
  {
    var t := Replaced(s, req);
    forall e | e in t ensures e.id < bound && e.id !in unlinked && (e.isNew <==> e.id !in claimed) {
      var i :| 0 <= i < |t| && t[i] == e;
      assert s[i] in s;
    }
  }

  /** Linking in a fresh, unclaimed request keeps Tracked under a bound one
      past its identity. */
  lemma {:induction false} SplicedTracked(s: seq<Alarm>, p: nat, e0: Alarm, unlinked: map<int, Alarm>, bound: int, claimed: set<int>)
    requires p <= |s| && Tracked(s, unlinked, bound, claimed)
    requires e0.id >= bound && e0.id !in unlinked && e0.isNew && e0.id !in claimed
    ensures Tracked(Splice(s, p, e0), unlinked, e0.id + 1, claimed)
  {
    var t := Splice(s, p, e0);
    forall e | e in t ensures e.id < e0.id + 1 && e.id !in unlinked && (e.isNew <==> e.id !in claimed) {
      var i :| 0 <= i < |t| && t[i] == e;
      if i < p { assert s[i] in s; }
      else if i > p { assert s[i - 1] in s; }
    }
  }

  /** alarm_insert with a fresh request whose `new` flag is set keeps the
      registry invariant. */
  lemma {:induction false} InsertedConsistent(s: seq<Alarm>, req: Alarm, unlinked: map<int, Alarm>, nextId: nat, claimed: set<int>)
    requires Consistent(s, unlinked, nextId, claimed) && req.id >= nextId && req.isNew
    ensures Consistent(Inserted(s, req).1, unlinked, req.id + 1, claimed)
  {
    var t := Inserted(s, req).1;
    var p := First(s, AtLeast(req.alarmNum));
    assert IsFresh(s, req) by {
      forall i | 0 <= i < |s| ensures s[i].id != req.id { assert s[i] in s; }
    }
    InsertedWellFormed(s, req);
    assert Tracked(s, unlinked, nextId, claimed);
    if req.kind == Standard && Has(s, req.alarmNum, Standard) {
      assert t == Replaced(s, req);
      ReplacedTracked(s, req, unlinked, nextId, claimed);
      assert Tracked(t, unlinked, req.id + 1, claimed);
    } else if t != s {
      assert t == Splice(s, p, req.(linked := true));
      SplicedTracked(s, p, req.(linked := true), unlinked, nextId, claimed);
    }
  }

  /** Clearing `new` on one entry and adding its identity to the claimed set
      keeps the registry invariant. */
  lemma {:induction false} ClaimedConsistent(s: seq<Alarm>, k: nat, unlinked: map<int, Alarm>, nextId: nat, claimed: set<int>)
    requires Consistent(s, unlinked, nextId, claimed) && k < |s|
    ensures Consistent(ClaimAt(s, k), unlinked, nextId, claimed + {s[k].id})
  {
    var t := ClaimAt(s, k);
    SkeletonKeepsWellFormed(s, t);
    forall e | e in t ensures e.id < nextId && e.id !in unlinked && (e.isNew <==> e.id !in claimed + {s[k].id}) {
      var i :| 0 <= i < |t| && t[i] == e;
      assert s[i] in s && s[k] in s;
      if i != k {
        assert s[i].id != s[k].id by { assert DistinctIds(s); }
      }
    }
  }

  /** Removing a claimed cancel and its alarm, and recording both as unlinked
      with linked = 0, keeps the registry invariant. */
  lemma {:induction false} RemovedConsistent(s: seq<Alarm>, id: int, unlinked: map<int, Alarm>, nextId: nat, claimed: set<int>)
    requires Consistent(s, unlinked, nextId, claimed)
    requires First(s, WithId(id)) < |s| && s[First(s, WithId(id))].kind == Cancel
    ensures var c := First(s, WithId(id));
      var s1 := Without(s, c);
      var k := First(s1, Numbered(s[c].alarmNum));
      k < |s1| &&
      Consistent(PairRemoved(s, id),
                 unlinked[id := s[c].(linked := false)][s1[k].id := s1[k].(linked := false)],
                 nextId, claimed)
  {
    var c := First(s, WithId(id));
    var n := s[c].alarmNum;
    var s1 := Without(s, c);
    var t := PairRemoved(s, id);
    PairTargetFound(s, c);
    var k := First(s1, Numbered(n));
    assert WellFormed(t) && forall e :: e in t ==> e in s && e.alarmNum != n by {
      PairRemovedEffect(s, id);
    }
    assert s1[k] in s by {
      WithoutMembers(s, c);
      assert s1[k] in s1;
    }
    var b :| 0 <= b < |s| && s[b] == s1[k];
    assert Matches(s[c], WithId(id));
    var u := unlinked[id := s[c].(linked := false)][s1[k].id := s1[k].(linked := false)];
    RemovedEntries(s, t, c, b, unlinked, nextId, claimed);
    assert Consistent(t, u, nextId, claimed);
  }

  /** The bookkeeping half of RemovedConsistent: the entries still linked keep
      their facts, and the two removed ones join `unlinked` with linked = 0. */
  lemma {:induction false} RemovedEntries(s: seq<Alarm>, t: seq<Alarm>, c: nat, b: nat,
                                          unlinked: map<int, Alarm>, nextId: nat, claimed: set<int>)
    requires Consistent(s, unlinked, nextId, claimed) && c < |s| && b < |s|
    requires s[c].alarmNum == s[b].alarmNum
    requires forall e :: e in t ==> e in s && e.alarmNum != s[c].alarmNum
    ensures var u := unlinked[s[c].id := s[c].(linked := false)][s[b].id := s[b].(linked := false)];
      (forall e :: e in t ==> e.id < nextId && e.id !in u && (e.isNew <==> e.id !in claimed)) &&
      (forall x :: x in u ==> x < nextId && u[x].id == x && !u[x].linked)
  {
    var u := unlinked[s[c].id := s[c].(linked := false)][s[b].id := s[b].(linked := false)];
    RemainingIds(s, t, c, b, s[c].alarmNum);
    forall e | e in t ensures e.id < nextId && e.id !in u && (e.isNew <==> e.id !in claimed) {
      assert e in s;
    }
    assert s[c].id < nextId && s[b].id < nextId by {
      assert s[c] in s && s[b] in s;
    }
    forall x | x in u ensures x < nextId && u[x].id == x && !u[x].linked {
      if x != s[b].id && x != s[c].id {
        assert x in unlinked && u[x] == unlinked[x];
      }
    }
  }

  /** The entries left after removing every entry numbered n share no
      identity with two removed entries numbered n. */
  lemma {:induction false} RemainingIds(s: seq<Alarm>, t: seq<Alarm>, c: nat, b: nat, n: int)
    requires DistinctIds(s) && c < |s| && b < |s| && s[c].alarmNum == n && s[b].alarmNum == n
    requires forall e :: e in t ==> e in s && e.alarmNum != n
    ensures forall e :: e in t ==> e.id != s[c].id && e.id != s[b].id
  {
    forall e | e in t ensures e.id != s[c].id && e.id != s[b].id {
      var a :| 0 <= a < |s| && s[a] == e;
      assert a != c && a != b;
    }
  }

  /** With distinct nodes, a walk for the identity of the entry at k stops at k. */
  lemma {:induction false} ClaimedFoundById(s: seq<Alarm>, k: nat)
    requires DistinctIds(s) && k < |s|
    ensures First(s, WithId(s[k].id)) == k
  {
    assert Matches(s[k], WithId(s[k].id));
    forall j | 0 <= j < k ensures !Matches(s[j], WithId(s[k].id)) {
    }
  }

  /** An unlinked identity is nowhere in the list, so a scan for it reaches tail. */
  lemma {:induction false} NotLinked(list: seq<Alarm>, unlinked: map<int, Alarm>, nextId: nat, claimed: set<int>, x: int)
    requires Consistent(list, unlinked, nextId, claimed) && x in unlinked
    ensures First(list, WithId(x)) == |list|
  {
    forall j | 0 <= j < |list| ensures list[j].id != x {
      assert list[j] in list;
    }
  }
}
