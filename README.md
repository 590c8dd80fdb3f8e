# Alarm registry of New_Alarm_Cond.c, modelled in Dafny

New_Alarm_Cond.c is a recurring-alarm program built from three kinds of threads.
- The main thread reads commands and inserts requests into a shared list.
- An alarm (dispatcher) thread claims new requests from that list.
- One display thread per alarm prints that alarm's message periodically.

The list is singly linked between a `head` and a `tail` sentinel. It is kept in non-decreasing order of alarm number. It holds standard alarms (`type` 1) and pending cancel requests (`type` 0).

This project models the list and every sequential operation on it. Each operation is a critical section of the source, taken as atomic.

- `alarm_list.dfy` (module `AlarmList`) holds the list as a value. It has the entry datatype, the request `main` builds, one specification function per list transformation, and the list invariants with the lemmas about them:
  - sorted by alarm number;
  - at most one standard and one cancel per number;
  - every pending cancel has its standard alarm;
  - every linked entry has `linked = 1`;
  - no node is linked twice.
- `registry.dfy` (module `AlarmRegistry`) holds the class `Registry`. Its field `list` holds the entries between the sentinels, and its methods change that field in place:
  - `SearchA` and `SearchB` are the two searches.
  - `ReplaceA` is the in-place replacement.
  - `Insert` is `alarm_insert`.
  - `Submit` is main's request set-up.
  - `Claim`, `RemovePair` and `DispatchStep` are the dispatcher.
  - Every "walk from `head->link` until some test holds" loop of the source is the one loop method `Scan`. `Scan` is proved against the specification function `First`.
  - Entries the dispatcher unlinks stay readable through the `unlinked` map, because a display thread still holds a pointer to its entry.
  - The class invariant `Valid` holds the list invariants plus the identity bookkeeping: fresh identities, unlinked entries have `linked = 0`, and `new` is set exactly on never-claimed entries.
- `notifier.dfy` (module `Notifier`) holds the display thread:
  - `Decide` is the decision of one cycle.
  - `RunNotifier` is the thread's loop over the successive reads of its entry.

An entry's address is its integer `id`. The C field `new` is called `isNew`, and `type` is called `kind`. Printed lines are values of the `Event` and `Cycle` datatypes.

## Model

| member | source | states |
|---|---|---|
| AlarmList.MakeRequest | New_Alarm_Cond.c:504-519 | The request main builds has new = 1, modified = 0 and time = now + seconds. It is a standard alarm exactly for a set command, which supplies the seconds and message. A cancel gets seconds = 0 and the message "Cancel command". |
| AlarmList.First | New_Alarm_Cond.c:61-70 | The position where a walk from head->link stops: no entry before it meets the test, and the entry there meets it. The walk reaches tail only when no entry meets the test. |
| AlarmList.FirstSameEntry | New_Alarm_Cond.c:54-98 | The search loop for a number and type stops before tail exactly when such an entry is linked. |
| AlarmList.Splice | New_Alarm_Cond.c:181-183 | Linking a node in front of position p puts it at p. Entries before p keep their place, and entries after it move up by one. |
| AlarmList.Without | New_Alarm_Cond.c:414 | Unlinking the node at p (previous->link = next->link) shifts every later entry down by one and leaves earlier ones in place. |
| AlarmList.SpliceWithout | New_Alarm_Cond.c:177-195 | Unlinking a freshly spliced node gives back the old list, so a splice keeps the other entries' relative order. |
| AlarmList.Overwrite | New_Alarm_Cond.c:115-118 | The entry that replaceAlarmA rewrites keeps its node, number, type, `new` and `linked`, takes the request's message, time and seconds, and gets modified = 1. |
| AlarmList.Replaced | New_Alarm_Cond.c:105-123 | replaceAlarmA as a list transformation keeps every node, number, type and link. Each entry is either unchanged or the standard entry with the request's number, rewritten by Overwrite. Without such an entry the list is unchanged. |
| AlarmList.SkeletonKeepsWellFormed | New_Alarm_Cond.c:115-118 | Changing only payload fields (message, time, seconds, new, modified) keeps every list invariant. |
| AlarmList.ReplacedEffect | New_Alarm_Cond.c:105-123 | In a well-formed list holding the standard alarm, replacement links and unlinks nothing. Only that entry changes: it takes the request's message, time and seconds and gets modified = 1. Its new flag and all other entries are untouched. |
| AlarmList.Inserted | New_Alarm_Cond.c:146-232 | alarm_insert as a list transformation. It reports "First" or "Replacement" exactly for a standard request. Both cancel errors leave the list unchanged. The list grows by one exactly for a first standard alarm or an accepted cancel, and otherwise keeps its length. |
| AlarmList.CancelPositionFound | New_Alarm_Cond.c:215-228 | When a standard alarm with the cancel's number is linked, the cancel's scan stops before tail, so its missing tail case never runs. |
| AlarmList.SpliceSorted | New_Alarm_Cond.c:177-195 | Splicing at the first entry whose number is at least the new one keeps the list sorted. |
| AlarmList.SpliceOnePerKind | New_Alarm_Cond.c:170-196 | Splicing a fresh node whose number and type are absent keeps one entry per number and type, and keeps nodes distinct. |
| AlarmList.SpliceTargets | New_Alarm_Cond.c:203-228 | Splicing keeps every pending cancel's standard alarm, and a new cancel is spliced only after its standard alarm was found. |
| AlarmList.SpliceWellFormed | New_Alarm_Cond.c:170-228 | Splicing a fresh linked entry at its insertion point keeps every list invariant, given that its number and type are absent and that a cancel has its target. |
| AlarmList.InsertedWellFormed | New_Alarm_Cond.c:146-232 | alarm_insert keeps every list invariant, whatever the request. |
| AlarmList.InsertionPointSplits | New_Alarm_Cond.c:177-188 | In a sorted list, every entry before the insertion point is numbered below the request, and every entry from it on is numbered at least the request. |
| AlarmList.InsertedLinksRequest | New_Alarm_Cond.c:170-228 | A first standard alarm or an accepted cancel is linked at the insertion point (at the end when none is found) with linked = 1. Unlinking it gives back the old list. The event is "First Alarm Request" or "Cancel Alarm Request" respectively. |
| AlarmList.InsertedReplaces | New_Alarm_Cond.c:160-169 | A standard request for a linked number reports "Replacement", leaves the list's structure and length alone, and is not linked itself. Only the matching entry takes its message, time and seconds and gets modified = 1. |
| AlarmList.CancelRejected | New_Alarm_Cond.c:198-209 | A cancel with no standard alarm reports "No Alarm Request to Cancel", and one with a pending cancel reports "More Than One Request". Both leave the list unchanged. |
| AlarmList.InsertedKeepsHas | New_Alarm_Cond.c:146-232 | An insertion never unlinks anything: a number and type present before are present after. |
| AlarmList.InsertedHasRequest | New_Alarm_Cond.c:146-232 | After an accepted request, its number and type are present. |
| AlarmList.InsertedKeepsFresh | New_Alarm_Cond.c:146-232 | An insertion links no node other than the request. |
| AlarmList.Count | New_Alarm_Cond.c:54-98 | The number of entries with a number and type is zero exactly when the search finds none. |
| AlarmList.CountAtMostOne | New_Alarm_Cond.c:198-209 | With one entry per number and type, no number has two standard or two cancel entries. |
| AlarmList.SecondRequestReplaces | New_Alarm_Cond.c:160-196 | Two requests for the same number leave exactly one standard entry for it. That entry carries the second request's message and is modified, and the list stays well formed. |
| AlarmList.SecondCancelRefused | New_Alarm_Cond.c:203-228 | A second cancel for a number before the dispatcher runs is refused with "More Than One Request" and changes nothing. Exactly one cancel entry is pending. |
| AlarmList.ClaimAt | New_Alarm_Cond.c:366-370 | Claiming clears new on one entry only and changes no link, number or type. |
| AlarmList.WithoutKeepsOrder | New_Alarm_Cond.c:407-433 | Unlinking any entry keeps the list sorted, keeps one entry per number and type, keeps all entries linked, and keeps nodes distinct. |
| AlarmList.WithoutSubset | New_Alarm_Cond.c:414 | Unlinking never brings in an entry that was not in the list. |
| AlarmList.WithoutMembers | New_Alarm_Cond.c:409-420 | Unlinking the node at p removes exactly that entry. |
| AlarmList.PairRemoved | New_Alarm_Cond.c:401-433 | The dispatcher's cancel removal as a list transformation: it unlinks one or two entries and brings in none. |
| AlarmList.PairTargetFound | New_Alarm_Cond.c:421-433 | Once the claimed cancel is unlinked, the first entry with its number is its standard alarm, found before tail. |
| AlarmList.PairMembers | New_Alarm_Cond.c:421-433 | The only entries numbered like a pending cancel are that cancel and its standard alarm. |
| AlarmList.PairRemovedTargets | New_Alarm_Cond.c:401-433 | Dropping every entry of one number keeps every other cancel's standard alarm, and leaves nothing of that number. |
| AlarmList.PairRemovedEffect | New_Alarm_Cond.c:401-433 | Processing a claimed cancel for n unlinks the cancel and the standard alarm n and nothing else, so the list shrinks by two. The remaining entries keep their relative order and every list invariant, and no entry of n remains. |
| AlarmRegistry.Registry.constructor | New_Alarm_Cond.c:467-473 | The registry starts as head->link = tail (an empty list) and satisfies the invariant. |
| AlarmRegistry.Registry.Scan | New_Alarm_Cond.c:86-96 | The loop walks the list and returns the position First specifies: the first entry meeting the test, or the list length for tail. |
| AlarmRegistry.Registry.Search | New_Alarm_Cond.c:54-98 | Returns 1 exactly when an entry of that number and type is linked, and 0 exactly when none is. It modifies nothing. |
| AlarmRegistry.Registry.SearchA | New_Alarm_Cond.c:54-72 | Returns 1 if a standard alarm with the number is linked, else 0. It modifies nothing. |
| AlarmRegistry.Registry.SearchB | New_Alarm_Cond.c:80-98 | Returns 1 if a cancel with the number is linked, else 0. It modifies nothing. |
| AlarmRegistry.Registry.ReplaceA | New_Alarm_Cond.c:105-123 | The new list is the replaced list, with the same nodes, numbers, types and links. The invariant is kept, and the unlinked map and identities are unchanged. |
| AlarmRegistry.Registry.Insert | New_Alarm_Cond.c:146-232 | The event and the new list are exactly those of alarm_insert's specification (Inserted). The invariant is kept and the request's identity is used up. |
| AlarmRegistry.Registry.Submit | New_Alarm_Cond.c:512-524 | A parsed command is turned into main's initialised request and inserted, with the same event and list as inserting that request. |
| AlarmRegistry.Registry.Claim | New_Alarm_Cond.c:362-373 | Returns the first entry with new = 1 and clears its new flag only. Its identity had not been claimed before, so each entry is claimed at most once. With no such entry it returns none and changes nothing. |
| AlarmRegistry.Registry.RemovePair | New_Alarm_Cond.c:401-433 | The list loses the claimed cancel (found by identity) and then the first entry with its number. Both are recorded as unlinked with linked = 0, and a display thread holding either pointer reads linked = 0. The invariant is kept. |
| AlarmRegistry.Registry.DispatchStep | New_Alarm_Cond.c:343-441 | One dispatcher pass. When no entry has new = 1, there is no event and nothing changes. Otherwise the first such entry is claimed, and its identity was not claimed before. A claimed standard alarm has only its new flag cleared; it is reported as processed and gets a display thread. A claimed cancel is reported, then removed together with the first remaining entry with its number. Both are recorded with linked = 0, which is what a display thread then reads through its pointer. |
| AlarmRegistry.Registry.Lookup | New_Alarm_Cond.c:269-270 | What a display thread reads through its pointer. Under the invariant it is the entry with that identity, and its linked flag is set exactly when the entry is in the list. |
| AlarmRegistry.ReplacedTracked | New_Alarm_Cond.c:105-123 | Replacement keeps every identity and new flag. |
| AlarmRegistry.SplicedTracked | New_Alarm_Cond.c:170-196 | Linking a freshly allocated, unclaimed request keeps the identity bookkeeping. |
| AlarmRegistry.InsertedConsistent | New_Alarm_Cond.c:146-232 | alarm_insert with a fresh request whose new flag is set keeps the registry invariant. |
| AlarmRegistry.ClaimedConsistent | New_Alarm_Cond.c:366-370 | Clearing new on one entry and recording it as claimed keeps the registry invariant. |
| AlarmRegistry.RemovedConsistent | New_Alarm_Cond.c:401-433 | The cancel removal finds its standard alarm, and removing both while recording them unlinked with linked = 0 keeps the registry invariant. |
| AlarmRegistry.RemovedEntries | New_Alarm_Cond.c:413-428 | The two removed entries join the unlinked entries with linked = 0, and the entries still linked keep their bookkeeping. |
| AlarmRegistry.RemainingIds | New_Alarm_Cond.c:401-433 | No remaining entry shares a node with the two removed ones. |
| AlarmRegistry.ClaimedFoundById | New_Alarm_Cond.c:409-411 | With distinct nodes, the walk for the claimed entry's address (`next == alarm`) stops at that entry. |
| AlarmRegistry.NotLinked | New_Alarm_Cond.c:411-415 | An unlinked node is nowhere in the list: a scan for it reaches tail. |
| Notifier.Decide | New_Alarm_Cond.c:269-301 | A cycle exits exactly when the entry has linked = 0. Otherwise it prints "Displayed" for an unmodified entry, "Replacement Displayed" for a modified one once the flag is set, and "Replaced" for a modified one before that. It shows the entry's number and message and sleeps its seconds. The flag ends up set exactly when it was set or the read finds a live, modified entry: an unmodified read leaves it alone, and a set flag stays set. |
| Notifier.RunNotifier | New_Alarm_Cond.c:248-324 | The thread stops only by exiting, on the first read with linked = 0. Every cycle before the last reads a linked entry and prints, so nothing is printed after the exit. Each other cycle prints "Displayed" while unmodified, "Replaced" on the first modified read, and "Replacement Displayed" on every later one. So "Replaced" is printed at most once and always before any "Replacement Displayed". |

## Left out

- The reader/writer gate (`mutex`, `rw_mutex`, `read_count` and its first-reader/last-reader protocol) is not modelled. Each critical section is one atomic method, so interleavings are not modelled. This includes the window in `alarm_thread` between releasing the read lock and taking the write lock.
- `pthread_create` is not modelled. Starting a display thread is the `NotifierStarted` event. Main's start of the alarm thread is not modelled. The threads' endless loops are one step (`DispatchStep`) or a finite sequence of observations (`RunNotifier`).
- `time(NULL)` and `sleep` are not modelled. The clock reading is the parameter `now`, and a cycle's sleep is the `sleep` field of `Cycle`.
- `printf`/`fprintf` text is not modelled; the printed lines are `Event` and `Cycle` values. The debug routine `printAlarmList` is not modelled either.
- `fgets` and `sscanf` parsing in `main` are not modelled. A parsed line is a `Command`, and "Bad command" and empty lines produce no request.
- `malloc`/`free`, `err_abort`/`errno_abort` and the leak of replaced or refused requests are not modelled. A fresh allocation is the next identity (`nextId`).
- The sentinel values 9999 and -1 of `tail` and `head` are not modelled, since only the debug printer uses them.
- The C `int` and `time_t` widths are not modelled; numbers are unbounded integers. The 64-character message bound is not modelled either.
- `linked` of a request is left uninitialised by `main`. The model sets it to 0 (`MakeRequest`), and it is read only after `alarm_insert` sets it to 1.
- AlarmRegistry.Registry.Insert: requires the request's `new` flag to be set and its identity to be fresh. `main` is the only caller and always guarantees both.
- AlarmRegistry.Registry.RemovePair: requires the claimed cancel to be in the list. In C, if it were missing, `alarmToDelete` would be read uninitialised. `DispatchStep` always meets this requirement.
