/** The alarm list of New_Alarm_Cond.c, seen as a value: the entries strictly
    between the `head` and `tail` sentinels, in link order. Everything here is
    pure; the class in registry.dfy changes a list of this shape in place. */
module AlarmList {

  datatype Option<T> = None | Some(value: T)

  /** `type` in the C struct: 1 is a standard alarm, 0 a cancel request. */
  datatype Kind = Standard | Cancel

  /** One `alarm_t`. `id` stands for the entry's address: two entries are the
      same object exactly when their ids agree. */
  datatype Alarm = Alarm(
    id: int,
    seconds: int,
    time: int,
    message: string,
    alarmNum: int,
    kind: Kind,
    isNew: bool,
    modified: bool,
    linked: bool)

  /** What the request intake hands over after parsing one command line. */
  datatype Command =
    | SetAlarm(seconds: int, alarmNum: int, message: string)
    | CancelAlarm(alarmNum: int)

  /** What the core reports instead of printing. */
  datatype Event =
    | FirstRequestReceived(alarmNum: int, message: string)
    | ReplacementReceived(alarmNum: int, message: string)
    | CancelReceived(alarmNum: int, message: string)
    | NothingToCancel(alarmNum: int)
    | MoreThanOneCancel(alarmNum: int)
    | RequestProcessed(alarmNum: int, message: string)
    | NotifierStarted(id: int)

  /** The message main stores in every cancel request. */
  const CancelMessage: string := "Cancel command"

  /** The entry main builds for one parsed command, before it is inserted:
      new = 1, modified = 0, and for a cancel seconds = 0 and a fixed message.
      `now` is the clock reading taken while the write lock is held. */
  function MakeRequest(id: int, cmd: Command, now: int): (a: Alarm)
    ensures a.id == id && a.isNew && !a.modified && !a.linked
    ensures a.time == now + a.seconds && a.alarmNum == cmd.alarmNum
    ensures a.kind == Standard <==> cmd.SetAlarm?
    ensures cmd.SetAlarm? ==> a.seconds == cmd.seconds && a.message == cmd.message
    ensures cmd.CancelAlarm? ==> a.seconds == 0 && a.message == CancelMessage
  {
    match cmd
    case SetAlarm(seconds, num, message) =>
      Alarm(id, seconds, now + seconds, message, num, Standard, true, false, false)
    case CancelAlarm(num) =>
      Alarm(id, 0, now, CancelMessage, num, Cancel, true, false, false)
  }

  // ---------------------------------------------------------------------
  // Scanning: every loop of the source walks from head->link towards tail
  // and stops at the first entry meeting one of these tests.

  datatype Criterion =
    | SameEntry(num: int, kind: Kind)   // searchAlarmA/B, replaceAlarmA
    | AtLeast(num: int)                 // the insertion point of alarm_insert
    | Unclaimed                         // the dispatcher's `new == 1` scan
    | WithId(id: int)                   // `next == alarm` in the cancel removal
    | Numbered(num: int)                // `next->alarmNum == alarmToDelete`

  predicate Matches(e: Alarm, c: Criterion) {
    match c
    case SameEntry(num, kind) => e.alarmNum == num && e.kind == kind
    case AtLeast(num) => e.alarmNum >= num
    case Unclaimed => e.isNew
    case WithId(id) => e.id == id
    case Numbered(num) => e.alarmNum == num
  }

  /** Position of the first entry meeting `c`, or |s| when the scan reaches tail. */
  function First(s: seq<Alarm>, c: Criterion): (i: nat)
    ensures i <= |s|
    ensures forall j :: 0 <= j < i ==> !Matches(s[j], c)
    ensures i < |s| ==> Matches(s[i], c)
  {
    if s == [] then 0
    else if Matches(s[0], c) then 0
    else 1 + First(s[1..], c)
  }

  /** Some entry has this number and this kind. */
  predicate Has(s: seq<Alarm>, num: int, kind: Kind) {
    exists i :: 0 <= i < |s| && s[i].alarmNum == num && s[i].kind == kind
  }

  lemma {:induction false} FirstSameEntry(s: seq<Alarm>, num: int, kind: Kind)
    ensures First(s, SameEntry(num, kind)) < |s| <==> Has(s, num, kind)
  {
    var i := First(s, SameEntry(num, kind));
    if Has(s, num, kind) {
      var j :| 0 <= j < |s| && s[j].alarmNum == num && s[j].kind == kind;
      assert Matches(s[j], SameEntry(num, kind));
    }
  }

  // ---------------------------------------------------------------------
  // Structural changes: linking a node in front of position p, and
  // unlinking the node at position p (`previous->link = next->link`).

  function Splice(s: seq<Alarm>, p: nat, e: Alarm): (r: seq<Alarm>)
    requires p <= |s|
    ensures |r| == |s| + 1 && r[p] == e
    ensures forall i :: 0 <= i < p ==> r[i] == s[i]
    ensures forall i :: p < i < |r| ==> r[i] == s[i - 1]
  {
    s[..p] + [e] + s[p..]
  }

  function Without(s: seq<Alarm>, p: nat): (r: seq<Alarm>)
    requires p < |s|
    ensures |r| == |s| - 1
    ensures forall i :: 0 <= i < p ==> r[i] == s[i]
    ensures forall i :: p <= i < |r| ==> r[i] == s[i + 1]
  {
    s[..p] + s[p + 1..]
  }

  /** Unlinking what was just linked gives back the old list: splicing keeps
      every other entry in its relative order. */
  lemma SpliceWithout(s: seq<Alarm>, p: nat, e: Alarm)
    requires p <= |s|
    ensures Without(Splice(s, p, e), p) == s
  {
    assert Without(Splice(s, p, e), p) == s[..p] + s[p..];
    assert s[..p] + s[p..] == s;
  }

  // ---------------------------------------------------------------------
  // The list invariants.

  /** Non-decreasing alarm numbers from head to tail. */
  ghost predicate Sorted(s: seq<Alarm>) {
    forall i, j :: 0 <= i < j < |s| ==> s[i].alarmNum <= s[j].alarmNum
  }

  /** At most one standard and at most one cancel entry per alarm number. */
  ghost predicate OnePerKind(s: seq<Alarm>) {
    forall i, j :: 0 <= i < j < |s| && s[i].alarmNum == s[j].alarmNum ==> s[i].kind != s[j].kind
  }

  /** A pending cancel always has the standard alarm it is meant to remove. */
  ghost predicate CancelsHaveTargets(s: seq<Alarm>) {
    forall i :: 0 <= i < |s| && s[i].kind == Cancel ==> Has(s, s[i].alarmNum, Standard)
  }

  ghost predicate AllLinked(s: seq<Alarm>) {
    forall i :: 0 <= i < |s| ==> s[i].linked
  }

  /** No node is linked twice. */
  ghost predicate DistinctIds(s: seq<Alarm>) {
    forall i, j :: 0 <= i < j < |s| ==> s[i].id != s[j].id
  }

  ghost predicate WellFormed(s: seq<Alarm>) {
    Sorted(s) && OnePerKind(s) && CancelsHaveTargets(s) && AllLinked(s) && DistinctIds(s)
  }

  /** Two lists with the same nodes, numbers, kinds and link flags in the same
      places; they may differ in message, time, seconds, new and modified. */
  ghost predicate SameSkeleton(s: seq<Alarm>, t: seq<Alarm>) {
    |s| == |t| &&
    forall i :: 0 <= i < |s| ==>
      s[i].id == t[i].id && s[i].alarmNum == t[i].alarmNum &&
      s[i].kind == t[i].kind && s[i].linked == t[i].linked
  }

  lemma SkeletonKeepsWellFormed(s: seq<Alarm>, t: seq<Alarm>)
    requires SameSkeleton(s, t) && WellFormed(s)
    ensures WellFormed(t)
  {
    forall i | 0 <= i < |t| && t[i].kind == Cancel
      ensures Has(t, t[i].alarmNum, Standard)
    {
      assert Has(s, s[i].alarmNum, Standard);
      var j :| 0 <= j < |s| && s[j].alarmNum == s[i].alarmNum && s[j].kind == Standard;
      assert t[j].alarmNum == t[i].alarmNum && t[j].kind == Standard;
    }
  }

  // ---------------------------------------------------------------------
  // replaceAlarmA

  /** The fields replaceAlarmA copies from the request, plus modified = 1. */
  function Overwrite(target: Alarm, req: Alarm): (r: Alarm)
    ensures r.id == target.id && r.alarmNum == target.alarmNum && r.kind == target.kind
    ensures r.isNew == target.isNew && r.linked == target.linked
    ensures r.message == req.message && r.time == req.time && r.seconds == req.seconds && r.modified
  {
    target.(message := req.message, time := req.time, seconds := req.seconds, modified := true)
  }

  /** The list after replaceAlarmA: the first standard entry with the
      request's number takes its message, time and seconds. */
  function Replaced(s: seq<Alarm>, req: Alarm): (r: seq<Alarm>)
    ensures SameSkeleton(s, r)
    ensures forall i :: 0 <= i < |s| ==>
      r[i] == s[i] || (s[i].alarmNum == req.alarmNum && s[i].kind == Standard && r[i] == Overwrite(s[i], req))
    ensures !Has(s, req.alarmNum, Standard) ==> r == s
  {
    FirstSameEntry(s, req.alarmNum, Standard);
    var k := First(s, SameEntry(req.alarmNum, Standard));
    if k < |s| then s[k := Overwrite(s[k], req)] else s
  }

  /** Replacement changes no link, and in a well-formed list it touches exactly
      the one standard entry with that number, and only its payload fields. */
  lemma {:induction false} ReplacedEffect(s: seq<Alarm>, req: Alarm)
    requires WellFormed(s) && Has(s, req.alarmNum, Standard)
    ensures var t := Replaced(s, req);
      SameSkeleton(s, t) && WellFormed(t) &&
      forall i :: 0 <= i < |s| ==>
        t[i].isNew == s[i].isNew &&
        if s[i].alarmNum == req.alarmNum && s[i].kind == Standard then
          t[i].message == req.message && t[i].time == req.time &&
          t[i].seconds == req.seconds && t[i].modified
        else t[i] == s[i]
  {
    var k := First(s, SameEntry(req.alarmNum, Standard));
    FirstSameEntry(s, req.alarmNum, Standard);
    var t := Replaced(s, req);
    assert t == s[k := Overwrite(s[k], req)];
    forall i | 0 <= i < |s| && s[i].alarmNum == req.alarmNum && s[i].kind == Standard
      ensures i == k
    {
    }
    SkeletonKeepsWellFormed(s, t);
  }

  // ---------------------------------------------------------------------
  // alarm_insert

  /** The effect of alarm_insert on the list and the event it reports. A new
      standard alarm is linked in front of the first entry whose number is at
      least its own, or at the end; a known one is replaced in place. A cancel
      needs a standard alarm and no pending cancel for its number; its scan
      has no fallback at tail. */
  function Inserted(s: seq<Alarm>, req: Alarm): (r: (Event, seq<Alarm>))
    ensures r.0.FirstRequestReceived? || r.0.ReplacementReceived? <==> req.kind == Standard
    ensures r.0.NothingToCancel? || r.0.MoreThanOneCancel? ==> r.1 == s
    ensures |r.1| == if r.0.FirstRequestReceived? || r.0.CancelReceived? then |s| + 1 else |s|
  {
    var num := req.alarmNum;
    var p := First(s, AtLeast(num));
    if req.kind == Standard then
      if Has(s, num, Standard) then (ReplacementReceived(num, req.message), Replaced(s, req))
      else (FirstRequestReceived(num, req.message), Splice(s, p, req.(linked := true)))
    else if !Has(s, num, Standard) then (NothingToCancel(num), s)
    else if Has(s, num, Cancel) then (MoreThanOneCancel(num), s)
    else
      CancelPositionFound(s, num);
      (CancelReceived(num, req.message),
       if p < |s| then Splice(s, p, req.(linked := true)) else s)
  }

  /** The entry of `s` is not linked yet. */
  ghost predicate IsFresh(s: seq<Alarm>, req: Alarm) {
    forall i :: 0 <= i < |s| ==> s[i].id != req.id
  }

  /** When a standard alarm with the cancel's number is linked, the cancel's
      scan stops before tail, so an accepted cancel is always linked. */
  lemma {:induction false} CancelPositionFound(s: seq<Alarm>, num: int)
    requires Has(s, num, Standard)
    ensures First(s, AtLeast(num)) < |s|
  {
    var j :| 0 <= j < |s| && s[j].alarmNum == num && s[j].kind == Standard;
    assert Matches(s[j], AtLeast(num));
  }

  /** Linking at the insertion point keeps the list sorted: everything before
      is smaller, everything after is at least as large. */
  lemma {:induction false} SpliceSorted(s: seq<Alarm>, e: Alarm)
    requires Sorted(s)
    ensures Sorted(Splice(s, First(s, AtLeast(e.alarmNum)), e))
  {
    var p := First(s, AtLeast(e.alarmNum));
    var r := Splice(s, p, e);
    forall i, j | 0 <= i < j < |r| ensures r[i].alarmNum <= r[j].alarmNum {
      if j == p {
        assert !Matches(s[i], AtLeast(e.alarmNum));
      } else if i == p {
        assert Matches(s[p], AtLeast(e.alarmNum));
        assert s[p].alarmNum <= s[j - 1].alarmNum;
      } else if i > p {
        assert s[i - 1].alarmNum <= s[j - 1].alarmNum;
      } else if j > p {
        assert s[i].alarmNum <= s[j - 1].alarmNum;
      }
    }
  }

  /** Linking an entry whose number and kind are not yet present keeps one
      entry per number and kind, and a fresh node keeps nodes distinct. */
  lemma {:induction false} SpliceOnePerKind(s: seq<Alarm>, p: nat, e: Alarm)
    requires p <= |s| && OnePerKind(s) && DistinctIds(s)
    requires IsFresh(s, e) && !Has(s, e.alarmNum, e.kind)
    ensures OnePerKind(Splice(s, p, e)) && DistinctIds(Splice(s, p, e))
  {
    var r := Splice(s, p, e);
    forall i, j | 0 <= i < j < |r|
      ensures r[i].alarmNum == r[j].alarmNum ==> r[i].kind != r[j].kind
      ensures r[i].id != r[j].id
    {
      var i' := if i < p then i else i - 1;
      var j' := if j < p then j else j - 1;
      if i == p {
        assert r[j] == s[j'];
      } else if j == p {
        assert r[i] == s[i'];
      } else {
        assert r[i] == s[i'] && r[j] == s[j'] && i' < j';
      }
    }
  }

  /** Every cancel of the old list keeps its standard alarm after a splice,
      and so does the new cancel when its standard alarm was already there. */
  lemma {:induction false} SpliceTargets(s: seq<Alarm>, p: nat, e: Alarm)
    requires p <= |s| && CancelsHaveTargets(s)
    requires e.kind == Cancel ==> Has(s, e.alarmNum, Standard)
    ensures CancelsHaveTargets(Splice(s, p, e))
  {
    var r := Splice(s, p, e);
    forall i | 0 <= i < |r| && r[i].kind == Cancel
      ensures Has(r, r[i].alarmNum, Standard)
    {
      var n := r[i].alarmNum;
      assert Has(s, n, Standard) by {
        if i < p { assert r[i] == s[i]; }
        else if i > p { assert r[i] == s[i - 1]; }
      }
      var j :| 0 <= j < |s| && s[j].alarmNum == n && s[j].kind == Standard;
      var j' := if j < p then j else j + 1;
      assert r[j'] == s[j];
    }
  }

  /** Linking a fresh, linked entry whose number and kind are not yet present
      keeps every list invariant. */
  lemma {:induction false} SpliceWellFormed(s: seq<Alarm>, e: Alarm)
    requires WellFormed(s) && IsFresh(s, e) && e.linked && !Has(s, e.alarmNum, e.kind)
    requires e.kind == Cancel ==> Has(s, e.alarmNum, Standard)
    ensures WellFormed(Splice(s, First(s, AtLeast(e.alarmNum)), e))
  {
    var p := First(s, AtLeast(e.alarmNum));
    SpliceSorted(s, e);
    SpliceOnePerKind(s, p, e);
    SpliceTargets(s, p, e);
  }

  /** alarm_insert keeps the list sorted, keeps one entry per number and kind,
      and never leaves a cancel without its standard alarm. */
  lemma {:induction false} InsertedWellFormed(s: seq<Alarm>, req: Alarm)
    requires WellFormed(s) && IsFresh(s, req)
    ensures WellFormed(Inserted(s, req).1)
  {
    var num := req.alarmNum;
    var e := req.(linked := true);
    if req.kind == Standard {
      if Has(s, num, Standard) {
        ReplacedEffect(s, req);
      } else {
        SpliceWellFormed(s, e);
      }
    } else if Has(s, num, Standard) && !Has(s, num, Cancel) {
      CancelPositionFound(s, num);
      SpliceWellFormed(s, e);
    }
  }

  /** In a sorted list the insertion point splits the entries: those before
      it are numbered below `num`, those from it on at least `num`. */
  lemma {:induction false} InsertionPointSplits(s: seq<Alarm>, num: int)
    requires Sorted(s)
    ensures var p := First(s, AtLeast(num));
      (forall i :: 0 <= i < p ==> s[i].alarmNum < num) &&
      (forall i :: p <= i < |s| ==> s[i].alarmNum >= num)
  {
    var p := First(s, AtLeast(num));
    forall i | 0 <= i < p ensures s[i].alarmNum < num {
      assert !Matches(s[i], AtLeast(num));
    }
    forall i | p <= i < |s| ensures s[i].alarmNum >= num {
      assert Matches(s[p], AtLeast(num));
    }
  }

  /** A first standard alarm, or an accepted cancel, is linked right in front
      of the first entry whose number is at least its own (at the end for a
      standard alarm when there is none), with linked = 1; unlinking it again
      gives back the old list, so the other entries keep their order. */
  lemma {:induction false} InsertedLinksRequest(s: seq<Alarm>, req: Alarm)
    requires req.kind == Standard ==> !Has(s, req.alarmNum, Standard)
    requires req.kind == Cancel ==> Has(s, req.alarmNum, Standard) && !Has(s, req.alarmNum, Cancel)
    ensures var (ev, t) := Inserted(s, req);
      var p := First(s, AtLeast(req.alarmNum));
      t == Splice(s, p, req.(linked := true)) && t[p].linked && Without(t, p) == s &&
      ev == (if req.kind == Standard then FirstRequestReceived(req.alarmNum, req.message)
             else CancelReceived(req.alarmNum, req.message))
  {
    var p := First(s, AtLeast(req.alarmNum));
    if req.kind == Cancel {
      CancelPositionFound(s, req.alarmNum);
    }
    SpliceWithout(s, p, req.(linked := true));
  }

  /** A standard request for a number that is already linked leaves the list
      structure alone: only that entry's payload changes, the request itself
      is not linked. */
  lemma {:induction false} InsertedReplaces(s: seq<Alarm>, req: Alarm)
    requires WellFormed(s) && IsFresh(s, req)
    requires req.kind == Standard && Has(s, req.alarmNum, Standard)
    ensures var (ev, t) := Inserted(s, req);
      ev == ReplacementReceived(req.alarmNum, req.message) &&
      SameSkeleton(s, t) && IsFresh(t, req) &&
      forall i :: 0 <= i < |s| ==>
        t[i].isNew == s[i].isNew &&
        if s[i].alarmNum == req.alarmNum && s[i].kind == Standard then
          t[i].message == req.message && t[i].time == req.time &&
          t[i].seconds == req.seconds && t[i].modified
        else t[i] == s[i]
  {
    ReplacedEffect(s, req);
  }

  /** Both rejections of a cancel request report and change nothing. */
  lemma {:induction false} CancelRejected(s: seq<Alarm>, req: Alarm)
    requires req.kind == Cancel
    requires !Has(s, req.alarmNum, Standard) || Has(s, req.alarmNum, Cancel)
    ensures Inserted(s, req).1 == s
    ensures Inserted(s, req).0 ==
      if !Has(s, req.alarmNum, Standard) then NothingToCancel(req.alarmNum)
      else MoreThanOneCancel(req.alarmNum)
  {
  }

  /** What was linked stays linked: an insertion never unlinks an entry. */
  lemma {:induction false} InsertedKeepsHas(s: seq<Alarm>, req: Alarm, num: int, kind: Kind)
    requires Has(s, num, kind)
    ensures Has(Inserted(s, req).1, num, kind)
  {
    var t := Inserted(s, req).1;
    var j :| 0 <= j < |s| && s[j].alarmNum == num && s[j].kind == kind;
    var p := First(s, AtLeast(req.alarmNum));
    if req.kind == Standard && Has(s, req.alarmNum, Standard) {
      assert t == Replaced(s, req);
      assert t[j].alarmNum == num && t[j].kind == kind;
    } else if t != s {
      assert t == Splice(s, p, req.(linked := true));
      var j' := if j < p then j else j + 1;
      assert t[j'] == s[j];
    }
  }

  /** An accepted request makes its number and kind present. */
  lemma {:induction false} InsertedHasRequest(s: seq<Alarm>, req: Alarm)
    requires req.kind == Cancel ==> Has(s, req.alarmNum, Standard) && !Has(s, req.alarmNum, Cancel)
    ensures Has(Inserted(s, req).1, req.alarmNum, req.kind)
  {
    if req.kind == Standard && Has(s, req.alarmNum, Standard) {
      InsertedKeepsHas(s, req, req.alarmNum, Standard);
    } else {
      InsertedLinksRequest(s, req);
      var p := First(s, AtLeast(req.alarmNum));
      assert Inserted(s, req).1[p] == req.(linked := true);
    }
  }

  /** An insertion links no node other than the request. */
  lemma {:induction false} InsertedKeepsFresh(s: seq<Alarm>, req: Alarm, x: Alarm)
    requires IsFresh(s, x) && x.id != req.id
    ensures IsFresh(Inserted(s, req).1, x)
  {
    var t := Inserted(s, req).1;
    var p := First(s, AtLeast(req.alarmNum));
    if req.kind == Standard && Has(s, req.alarmNum, Standard) {
      assert t == Replaced(s, req);
    } else if t != s {
      assert t == Splice(s, p, req.(linked := true));
      forall i | 0 <= i < |t| ensures t[i].id != x.id {
        if i < p { assert t[i] == s[i]; }
        else if i > p { assert t[i] == s[i - 1]; }
      }
    }
  }

  /** Number of entries with this number and kind. */
  function Count(s: seq<Alarm>, num: int, kind: Kind): (n: nat)
    ensures n <= |s|
    ensures n == 0 <==> !Has(s, num, kind)
  {
    if s == [] then 0
    else
      var rest := Count(s[1..], num, kind);
      assert forall i :: 1 <= i < |s| ==> s[1..][i - 1] == s[i];
      assert Has(s[1..], num, kind) ==> Has(s, num, kind);
      (if s[0].alarmNum == num && s[0].kind == kind then 1 else 0) + rest
  }

  lemma {:induction false} CountAtMostOne(s: seq<Alarm>, num: int, kind: Kind)
    requires OnePerKind(s)
    ensures Count(s, num, kind) <= 1
  {
    if s != [] {
      assert OnePerKind(s[1..]) by {
        forall i, j | 0 <= i < j < |s[1..]| && s[1..][i].alarmNum == s[1..][j].alarmNum
          ensures s[1..][i].kind != s[1..][j].kind
        {
          assert s[1..][i] == s[i + 1] && s[1..][j] == s[j + 1];
        }
      }
      CountAtMostOne(s[1..], num, kind);
      if s[0].alarmNum == num && s[0].kind == kind {
        forall j | 0 <= j < |s[1..]| && s[1..][j].alarmNum == num
          ensures s[1..][j].kind != kind
        {
          assert s[1..][j] == s[j + 1];
        }
      }
    }
  }

  /** Requesting alarm n twice leaves exactly one standard entry for n: the
      second request's message on a modified entry. */
  lemma {:induction false} SecondRequestReplaces(s: seq<Alarm>, a: Alarm, b: Alarm)
    requires WellFormed(s) && IsFresh(s, a) && IsFresh(s, b) && a.id != b.id
    requires a.kind == Standard && b.kind == Standard && a.alarmNum == b.alarmNum
    ensures var t := Inserted(Inserted(s, a).1, b).1;
      WellFormed(t) && Count(t, b.alarmNum, Standard) == 1 &&
      forall i :: 0 <= i < |t| && t[i].alarmNum == b.alarmNum && t[i].kind == Standard ==>
        t[i].message == b.message && t[i].modified
  {
    var t1 := Inserted(s, a).1;
    InsertedWellFormed(s, a);
    InsertedHasRequest(s, a);
    InsertedKeepsFresh(s, a, b);
    var t := Inserted(t1, b).1;
    assert t == Replaced(t1, b);
    ReplacedEffect(t1, b);
    InsertedKeepsHas(t1, b, b.alarmNum, Standard);
    CountAtMostOne(t, b.alarmNum, Standard);
  }

  /** Cancelling a number twice before the dispatcher gets to it: the second
      cancel is refused and exactly one cancel entry stays linked. */
  lemma {:induction false} SecondCancelRefused(s: seq<Alarm>, c1: Alarm, c2: Alarm)
    requires WellFormed(s) && IsFresh(s, c1)
    requires c1.kind == Cancel && c2.kind == Cancel && c1.alarmNum == c2.alarmNum
    requires Has(s, c1.alarmNum, Standard) && !Has(s, c1.alarmNum, Cancel)
    ensures var t1 := Inserted(s, c1).1;
      Inserted(t1, c2) == (MoreThanOneCancel(c2.alarmNum), t1) &&
      Count(t1, c1.alarmNum, Cancel) == 1
  {
    var t1 := Inserted(s, c1).1;
    InsertedWellFormed(s, c1);
    InsertedHasRequest(s, c1);
    InsertedKeepsHas(s, c1, c1.alarmNum, Standard);
    CountAtMostOne(t1, c1.alarmNum, Cancel);
  }

  // ---------------------------------------------------------------------
  // The dispatcher

  /** The list after the dispatcher claims the entry at position k. */
  function ClaimAt(s: seq<Alarm>, k: nat): (t: seq<Alarm>)
    requires k < |s|
    ensures SameSkeleton(s, t) && t[k] == s[k].(isNew := false)
    ensures forall i :: 0 <= i < |s| && i != k ==> t[i] == s[i]
  {
    s[k := s[k].(isNew := false)]
  }

  /** The list after removing a claimed cancel entry and then the first
      remaining entry carrying its number. */
  function PairRemoved(s: seq<Alarm>, id: int): (r: seq<Alarm>)
    requires First(s, WithId(id)) < |s|
    ensures |s| - 2 <= |r| < |s|
    ensures forall e :: e in r ==> e in s
  {
    var c := First(s, WithId(id));
    var s1 := Without(s, c);
    var t := First(s1, Numbered(s[c].alarmNum));
    WithoutSubset(s, c);
    if t < |s1| then
      WithoutSubset(s1, t);
      Without(s1, t)
    else s1
  }

  /** Removing an entry keeps the list sorted, one per kind, linked and
      without duplicate nodes. */
  lemma {:induction false} WithoutKeepsOrder(s: seq<Alarm>, p: nat)
    requires p < |s| && Sorted(s) && OnePerKind(s) && AllLinked(s) && DistinctIds(s)
    ensures var r := Without(s, p);
      Sorted(r) && OnePerKind(r) && AllLinked(r) && DistinctIds(r)
  {
    var r := Without(s, p);
    forall i, j | 0 <= i < j < |r|
      ensures r[i].alarmNum <= r[j].alarmNum
      ensures r[i].alarmNum == r[j].alarmNum ==> r[i].kind != r[j].kind
      ensures r[i].id != r[j].id
    {
      var i' := if i < p then i else i + 1;
      var j' := if j < p then j else j + 1;
      assert r[i] == s[i'] && r[j] == s[j'] && i' < j';
    }
    forall i | 0 <= i < |r| ensures r[i].linked {
      var i' := if i < p then i else i + 1;
      assert r[i] == s[i'];
    }
  }

  /** Unlinking never brings in an entry. */
  lemma {:induction false} WithoutSubset(s: seq<Alarm>, p: nat)
    requires p < |s|
    ensures forall e :: e in Without(s, p) ==> e in s
  {
    var r := Without(s, p);
    forall e | e in r ensures e in s {
      var i :| 0 <= i < |r| && r[i] == e;
      var i' := if i < p then i else i + 1;
      assert r[i] == s[i'];
    }
  }

  /** Unlinking the node at p removes exactly that entry. */
  lemma {:induction false} WithoutMembers(s: seq<Alarm>, p: nat)
    requires p < |s| && DistinctIds(s)
    ensures forall e :: e in Without(s, p) <==> e in s && e != s[p]
  {
    var r := Without(s, p);
    forall e | e in r ensures e in s && e != s[p] {
      var i :| 0 <= i < |r| && r[i] == e;
      var i' := if i < p then i else i + 1;
      assert r[i] == s[i'];
    }
    forall e | e in s && e != s[p] ensures e in r {
      var i :| 0 <= i < |s| && s[i] == e;
      var i' := if i < p then i else i - 1;
      assert r[i'] == e;
    }
  }

  /** With one entry per number and kind, an entry is known by its number and kind. */
  lemma {:induction false} SameNumberSameKind(s: seq<Alarm>, i: nat, j: nat)
    requires OnePerKind(s) && i < |s| && j < |s|
    requires s[i].alarmNum == s[j].alarmNum && s[i].kind == s[j].kind
    ensures i == j
  {
  }

  /** Once the claimed cancel is unlinked, the first entry numbered like it is
      the standard alarm it cancels. */
  lemma {:induction false} PairTargetFound(s: seq<Alarm>, c: nat)
    requires WellFormed(s) && c < |s| && s[c].kind == Cancel
    ensures var s1 := Without(s, c);
      var k := First(s1, Numbered(s[c].alarmNum));
      k < |s1| && s1[k].kind == Standard && s1[k].alarmNum == s[c].alarmNum
  {
    var n := s[c].alarmNum;
    var s1 := Without(s, c);
    assert Has(s, n, Standard);
    var j :| 0 <= j < |s| && s[j].alarmNum == n && s[j].kind == Standard;
    var j1 := if j < c then j else j - 1;
    assert s1[j1] == s[j];
    assert Matches(s1[j1], Numbered(n));
    var k := First(s1, Numbered(n));
    var k' := if k < c then k else k + 1;
    assert s1[k] == s[k'];
    assert k' != c && s[k'].alarmNum == s[c].alarmNum;
  }

  /** Processing a claimed cancel for number n removes the cancel entry and the
      standard alarm n and nothing else; the entries left keep their relative
      order and the list invariants. */
  lemma {:induction false} PairRemovedEffect(s: seq<Alarm>, id: int)
    requires WellFormed(s) && First(s, WithId(id)) < |s|
    requires s[First(s, WithId(id))].kind == Cancel
    ensures var c := First(s, WithId(id));
      var n := s[c].alarmNum;
      var t := PairRemoved(s, id);
      var s1 := Without(s, c);
      var k := First(s1, Numbered(n));
      k < |s1| && s1[k].kind == Standard && s1[k].alarmNum == n &&
      t == Without(s1, k) && |t| == |s| - 2 &&
      WellFormed(t) && !Has(t, n, Standard) && !Has(t, n, Cancel) &&
      (forall e :: e in t <==> e in s && e.alarmNum != n)
  {
    var c := First(s, WithId(id));
    var n := s[c].alarmNum;
    var s1 := Without(s, c);
    PairTargetFound(s, c);
    var k := First(s1, Numbered(n));
    var t := Without(s1, k);
    WithoutKeepsOrder(s, c);
    WithoutMembers(s, c);
    WithoutKeepsOrder(s1, k);
    WithoutMembers(s1, k);
    PairMembers(s, c, s1[k]);
    PairRemovedTargets(s, t, n);
  }

  /** In a well-formed list the entries numbered like the cancel at c are that
      cancel and the standard alarm `std`, nothing else. */
  lemma {:induction false} PairMembers(s: seq<Alarm>, c: nat, std: Alarm)
    requires OnePerKind(s) && c < |s| && s[c].kind == Cancel
    requires std in s && std.kind == Standard && std.alarmNum == s[c].alarmNum
    ensures forall e :: e in s && e != s[c] && e != std ==> e.alarmNum != s[c].alarmNum
  {
    forall e | e in s && e.alarmNum == s[c].alarmNum ensures e == s[c] || e == std {
      var i :| 0 <= i < |s| && s[i] == e;
      var j :| 0 <= j < |s| && s[j] == std;
      if e.kind == Cancel {
        SameNumberSameKind(s, i, c);
      } else {
        SameNumberSameKind(s, i, j);
      }
    }
  }

  /** Dropping every entry numbered n keeps the standard alarms of all other
      pending cancels. */
  lemma {:induction false} PairRemovedTargets(s: seq<Alarm>, t: seq<Alarm>, n: int)
    requires CancelsHaveTargets(s)
    requires forall e :: e in t <==> e in s && e.alarmNum != n
    ensures CancelsHaveTargets(t) && !Has(t, n, Standard) && !Has(t, n, Cancel)
  {
    forall i | 0 <= i < |t| ensures t[i].alarmNum != n {
      assert t[i] in t;
    }
    forall i | 0 <= i < |t| && t[i].kind == Cancel
      ensures Has(t, t[i].alarmNum, Standard)
    {
      var m := t[i].alarmNum;
      assert t[i] in t;
      var a :| 0 <= a < |s| && s[a] == t[i];
      assert Has(s, m, Standard);
      var b :| 0 <= b < |s| && s[b].alarmNum == m && s[b].kind == Standard;
      assert s[b] in t;
      var b' :| 0 <= b' < |t| && t[b'] == s[b];
    }
  }
}
