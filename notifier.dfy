/** The display thread of New_Alarm_Cond.c (periodic_display_thread): one per
    standard alarm, reading its entry once per cycle through the pointer it was
    started with, until it finds the entry unlinked. */
module Notifier {
  import AlarmList

  /** The three lines a live display thread may print. */
  datatype Notice = Displayed | ReplacedNotice | ReplacementDisplayed

  /** What one cycle does: exit, or print a notice and sleep `sleep` seconds. */
  datatype Cycle =
    | Exiting(message: string)
    | Shown(notice: Notice, alarmNum: int, message: string, sleep: int)

  /** The decision of one cycle, given the entry as read under the read lock
      and the thread's local flag ("the replacement was announced"); returns
      the cycle and the flag for the next one. The thread exits exactly when
      the entry is unlinked; a live unmodified entry is "Displayed", a
      modified one "Replaced" the first time and "Replacement Displayed"
      afterwards. The flag is set by the first modified read and never
      cleared. */
  function Decide(a: AlarmList.Alarm, announced: bool): (r: (Cycle, bool))
    ensures r.0.Exiting? <==> !a.linked
    ensures r.0.Shown? ==>
      r.0.notice == (if !a.modified then Displayed
                     else if announced then ReplacementDisplayed
                     else ReplacedNotice)
    ensures r.1 <==> announced || (a.linked && a.modified)
    ensures r.0.Shown? ==> r.0.alarmNum == a.alarmNum && r.0.message == a.message && r.0.sleep == a.seconds
  {
    if !a.linked then (Exiting(a.message), announced)
    else if !a.modified then (Shown(Displayed, a.alarmNum, a.message, a.seconds), announced)
    else if announced then (Shown(ReplacementDisplayed, a.alarmNum, a.message, a.seconds), announced)
    else (Shown(ReplacedNotice, a.alarmNum, a.message, a.seconds), true)
  }

  /** Some earlier read of the entry found it modified. */
  ghost predicate ModifiedBefore(observed: seq<AlarmList.Alarm>, i: int)
    requires i <= |observed|
  {
    exists j :: 0 <= j < i && observed[j].modified
  }

  /** The thread's loop over the successive reads of its entry (`observed[i]`
      is what cycle i reads). It stops after the first read that finds the
      entry unlinked. Until then each cycle prints "Displayed" while the entry
      is unmodified, "Replaced" on the first read that finds it modified, and
      "Replacement Displayed" on every later one; so "Replaced" is printed at
      most once and always before any "Replacement Displayed". */
  method RunNotifier(observed: seq<AlarmList.Alarm>) returns (cycles: seq<Cycle>)
    ensures |cycles| <= |observed|
    ensures |cycles| < |observed| ==> |cycles| > 0 && cycles[|cycles| - 1].Exiting?
    ensures forall i :: 0 <= i < |cycles| - 1 ==> observed[i].linked && cycles[i].Shown?
    ensures forall i :: 0 <= i < |cycles| ==> (cycles[i].Exiting? <==> !observed[i].linked)
    ensures forall i :: 0 <= i < |cycles| && observed[i].linked ==>
      cycles[i] == Shown(
        if !observed[i].modified then Displayed
        else if ModifiedBefore(observed, i) then ReplacementDisplayed
        else ReplacedNotice,
        observed[i].alarmNum, observed[i].message, observed[i].seconds)
    ensures forall i, j :: 0 <= i < j < |cycles| && cycles[i].Shown? && cycles[j].Shown? ==>
      !(cycles[i].notice == ReplacedNotice && cycles[j].notice == ReplacedNotice)
    ensures forall j :: 0 <= j < |cycles| && cycles[j].Shown? && cycles[j].notice == ReplacementDisplayed ==>
      exists i :: 0 <= i < j && cycles[i].Shown? && cycles[i].notice == ReplacedNotice
  {
    var flag := false;
    ghost var replacedAt := 0;
    cycles := [];
    var i := 0;
    while i < |observed|
      invariant i <= |observed| && |cycles| == i
      invariant forall j :: 0 <= j < i ==> observed[j].linked
      invariant flag <==> ModifiedBefore(observed, i)
      invariant flag ==> replacedAt < i && cycles[replacedAt] == Shown(ReplacedNotice,
        observed[replacedAt].alarmNum, observed[replacedAt].message, observed[replacedAt].seconds)
      invariant flag ==> forall j :: 0 <= j < replacedAt ==> !observed[j].modified
      invariant forall j :: 0 <= j < i ==>
        cycles[j] == Shown(
          if !observed[j].modified then Displayed
          else if ModifiedBefore(observed, j) then ReplacementDisplayed
          else ReplacedNotice,
          observed[j].alarmNum, observed[j].message, observed[j].seconds)
    {
      var (cycle, next) := Decide(observed[i], flag);
      cycles := cycles + [cycle];
      if cycle.Exiting? {
        return;
      }
      if next && !flag {
        replacedAt := i;
      }
      flag := next;
      i := i + 1;
    }
  }
}
