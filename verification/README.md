# tvheadend: a verified model

This project models the parts of the TV server tvheadend in which correctness is hard to see
from one function, and proves what they promise. Everything is checked by Dafny's verifier:
`dafny verify dfyconfig.toml` checks the whole project.

## What is modelled

**The EPG schedule of a channel** (`Schedule`, `ScheduleLaws`, `Channel`, `Epg`). Grabbers
insert events into a schedule ordered by start time. An insert may extend an event, delete or
trim its neighbours within a configured cut window, or be refused by a grabber of higher
priority; a timer drops what is over and maintains the now and next pointers. `Schedule` gives
an insert as a function on sequences of events, `ScheduleLaws` proves who is refused, who
survives and what is trimmed, `Channel` adds now, next and the timer and proves the invariant
over whole runs, and `Epg` holds the classes whose methods do this on shared, reference-counted
objects and proves that they carry out exactly those transitions and that the pointers and
counts stay right.

**Cron entries** (`Calendar`, `Cron`, `CronSpec`). A text of five fields becomes five bit
masks, modelled as sets of bit positions; the next matching minute is found with roll-overs and
a shortcut over months. The calendar is the Gregorian one, with a day number as independent
reference. A shift by a negative amount, undefined in C, is an outcome of its own of the parser.

**The extra-data interlock of an HTTP connection** (`HttpExtra`). Streamer threads queue chunks
for a socket on which one other thread writes replies, coordinated by a lock and two atomic
counters. Each atomic operation, each access under the lock and each write is one step of a
state machine; the theorems hold for every interleaving of any number of threads.

**Binary messages and the EPG database file** (`Htsmsg`, `Binary2Length`, `Binary2`,
`Binary2Code`, `EpgDb`). Message trees, their comparison, their binary form with lengths in
groups of seven bits, the loops that count, write and read it, and the file that is a sequence
of framed messages.

**The elementary-stream filter** (`EsFilter`, `EsFilterLaws`, `EsFilterMarks`, `EsStream`).
Ordered rules select the streams of a service class by class; `EsStream` holds the loops over
streams, flags, the scratch array and the result list, `EsFilter` the same as functions, and the
two law modules say what is selected without any loop.

**The EPG data queue** (`EpgGrab`). Producers and one consumer share a queue of queues under a
mutex with a condition variable; again every interleaving.

**The byte queue, the escapers and address prefixes** (`HtsBuf`, `Escape`, `Netmask`).

`Wrappers` holds the optional value and the bytes that several modules use.

## Where code and documentation differ

- `@daily` is commented as 01:01 and `@hourly` as XX:02, but the values stored are masks with a
  single bit: they match 00:00 and XX:01. `CronSpec.DailyIsMidnight` states what the code does.
- `htsmsg_cmp` has no case for UUID fields, so two messages that differ only in UUIDs compare
  equal. `Htsmsg.ComparisonIsEqualityIff` says for which messages comparing equal means equal.
- A refused insert may already have removed or trimmed a neighbour.
  `ScheduleLaws.RefusedLeavesScheduleIff` says exactly when it has not,
  `ScheduleLaws.RefusedSurvivors` what it leaves otherwise, and `ScheduleLaws.RefusedMayRemove`
  is an input on which it removes one.
- `htsbuf_data_free` takes the room never filled off `hq_size` as well. `HtsBuf.Queue.Read` says
  when the size stays exact, and `HtsBuf.SizeGoesWrong` is a run in which it does not.
- ONE_TIME is commented as once per language, but a rule without a language is once per class.
  `EsFilterMarks.OncePerLanguageIff` states when a rule on its own does what the comment says:
  exactly when all streams it hits have one language. `EsFilterMarks.SecondLanguageDropped` is an
  input with two languages on which it does not.
- A database file whose last message is shorter than five bytes, or of 4 GiB and more, is not
  read back whole. `EpgDb.LoadedIsSavedIff` is the exact condition.

## Model

| member | source | states |
|---|---|---|
| Schedule.InsertKeepsOrdered | src/epg.c:576-730 | whatever an insert does - add, extend, trim, delete neighbours, refuse - the schedule stays sorted by start, every event with start before stop, and free of overlaps |
| ScheduleLaws.BlocksIsCannotRemove | src/epg.c:177-197 | the priority test of the overlap loops and the one that changes an event's grabber agree: an event blocks a source exactly when it may not be removed for it and may not be taken over by it |
| ScheduleLaws.InsertRefused | src/epg.c:636-715 | an insert is refused exactly when some event it overlaps outranks the source and nothing in front of that event already shortens the newcomer |
| ScheduleLaws.RefusedLeavesScheduleIff | src/epg.c:661-715 | a refused insert leaves the schedule as it was exactly when the first event in its way is also the first it overlaps |
| ScheduleLaws.RefusedMayRemove | src/epg.c:661-715 | two events, the second of high priority: a refused insert across both has removed the first |
| ScheduleLaws.RefusedSurvivors | src/epg.c:636-715 | after a refused insert the schedule is exactly the events from the first one in its way on, the earlier ones it does not overlap, and the predecessor it had already shortened, if any |
| ScheduleLaws.LostEventsOverlap | src/epg.c:636-715 | an event that any insert, accepted or refused, takes away or changes is one it overlaps, with a grabber that does not outrank the source |
| ScheduleLaws.OutrankingEventsKept | src/epg.c:177-197 | an event whose grabber blocks the source comes through every insert unchanged, on the same-start, the before and the after path |
| ScheduleLaws.InsertSurvivors | src/epg.c:636-715 | after an accepted insert the schedule is exactly the new event, the old events it does not overlap, and the predecessor it shortened |
| ScheduleLaws.AcceptedKeepsItsTime | src/epg.c:689-715 | with a cut window w whose double fits 32 bits an accepted insert keeps its start, ends at most w seconds early, and is shortened only while more than w seconds remain |
| ScheduleLaws.TrimLeavesMoreThanWindowIff | src/epg.c:670-680 | every trim of every insert, accepted or refused, takes at most w seconds and leaves more than w, for all schedules and inserts exactly when doubling w does not wrap in 32 bits |
| ScheduleLaws.TrimLeavesLess | src/epg.c:670-680 | for each w whose double wraps, an insert that cuts an event of w + 1 seconds down to one second |
| ScheduleLaws.InsertTwiceIsOnce | src/epg.c:608-715 | inserting the same event from the same grabber twice is the same as once, whether it was accepted, trimmed or refused |
| Channel.TimerExact | src/epg.c:508-574 | unless the current event is flagged as running, the timer keeps exactly the events not over, now is the one containing the clock and next the earliest that starts after it |
| Channel.RunKeepsInv | src/epg.c:494-730 | over every run of inserts, removals, timer calls and running flags the schedule stays sorted and non-overlapping and now and next are null or members of it |
| Channel.RunSpares | src/epg.c:494-730 | over a whole run an event survives unchanged while every insert comes from a grabber it outranks and it is not over, removed by name or flagged |
| Epg.Broadcast.PutRef | src/epg.c:147-159 | one reference less; the object is freed exactly with its last reference |
| Epg.EpgChannel.RemBroadcast | src/epg.c:494-506 | the event leaves the schedule, now and next do not point to it, and it gives up exactly one reference |
| Epg.EpgChannel.PlaceEvent | src/epg.c:661-715 | both overlap loops terminate and leave the schedule that resolving the event's overlaps gives |
| Epg.EpgChannel.DropExpired | src/epg.c:528-551 | exactly the expired events leave the front of the schedule, each with one reference |
| Epg.EpgChannel.TimerCallback | src/epg.c:508-574 | the callback carries out the timer transition; events that stay keep their reference counts and events that go lose exactly one and are freed with the last |
| Epg.EpgChannel.AddBroadcast | src/epg.c:576-730 | the insert carries out its transition on the objects and returns the event, which has not been freed, unless it was refused or has left the schedule again and been freed; other events keep their reference counts or lose the schedule's one with their place |
| Epg.EpgChannel.FindByTime | src/epg.c:1003-1018 | the guards on the times refuse without any effect, else the insert transition with its outcome |
| Calendar.EarlierIffFewerDays | src/cron.c:201-223 | the day number, the sum of the year and month lengths, orders valid dates as year, month and day do |
| Calendar.YearsInClosedForm | src/cron.c:201-209 | the leap years counted one by one are every fourth, not every hundredth, but every four hundredth |
| Calendar.TomorrowDays | src/cron.c:297-308 | the roll-over of day, month and year is the next valid date and the next day number |
| Cron.SettleField | src/cron.c:255-272 | the loop over minutes or hours ends at the first value in the mask, or wraps to the least one exactly when none is left |
| Cron.AdvanceDay | src/cron.c:297-308 | the day after, with month and year rolled over, and its true weekday |
| Cron.SkipMonths | src/cron.c:310-320 | the month shortcut terminates, passes over no matching minute and keeps the weekday true |
| Cron.NextDate | src/cron.c:297-320 | one turn of the date loop moves to a later valid date, passes over no matching minute and keeps the weekday true |
| Cron.SettleDate | src/cron.c:285-321 | the date loop ends at the first matching date, or gives up only beyond a thousand days or at the end year |
| Cron.CronNext | src/cron.c:228-321 | what is found is the least minute strictly after now that matches all five masks, with its true weekday; if nothing is found there is no match within a thousand days before the end year; and for an entry that fires on every weekday nothing is found exactly when no date of any year fits its day and month masks |
| Cron.BeforeIffFewerMinutes | src/cron.c:228-321 | the order on broken-down times is that of the minutes they count |
| CronSpec.SetBits | src/cron.c:78-84 | the loop sets exactly the bits of the multiples of the step between the two bounds, multiples counted from zero |
| CronSpec.ParseFieldLoop | src/cron.c:58-104 | the one-pass parser computes the parse function, for every text |
| CronSpec.FieldParsed | src/cron.c:58-104 | parsing the printed text of a field in range adds exactly the bits its terms denote and stops just past the field |
| CronSpec.AcceptedIsWellFormed | src/cron.c:109-159 | every accepted text, well-formed or not, leaves five non-empty masks in range, which is all the search relies on |
| CronSpec.EntryParsed | src/cron.c:109-159 | a printed entry is accepted exactly when every field denotes some value, and then matches a time exactly when the terms do |
| CronSpec.DailyIsMidnight | src/cron.c:123-137 | what the two abbreviations really match: midnight, and the first minute of each hour |
| HttpExtra.StepKeepsInv | src/http.c:861-968 | every step of every thread keeps the invariant that ties counters, queue, places and wire together |
| HttpExtra.WireIsWhole | src/http.c:861-968 | in every interleaving the wire carries whole replies and whole chunks, chunks in the order queued, followed only by the reply in progress or a prefix of the one chunk that is next |
| HttpExtra.ReplyIsAlone | src/http.h:267-279 | while a reply is being written no thread has just sent part of a chunk, and a thread that is about to send finds the queue empty |
| HttpExtra.LockFreeCounters | src/http.c:861-968 | with the lock free the chunk counter is the number of queued chunks, the queue size the sum of their unsent bytes, no chunk is empty and only the head can be half sent |
| HttpExtra.NothingLost | src/http.c:861-968 | with the lock free and no reply under way the chunks accepted are those sent whole followed by those queued, in order |
| HttpExtra.BacklogBound | src/http.c:954-968 | if every chunk may be discarded and none is longer than a bound, the unsent backlog never exceeds 1 MiB and that bound |
| Htsmsg.Compare | src/htsmsg.c:1337-1400 | the comparison is 0 exactly when the trees are equal up to the content of UUIDs |
| Htsmsg.ComparisonIsEqualityIff | src/htsmsg.c:1358-1392 | comparing equal means being equal exactly for messages without a UUID; any other compares equal to a different message |
| Binary2Length.ReadLength | src/htsmsg_binary2.c:34-48 | the loop reads the length function of the bytes, also when the length is cut off |
| Binary2Length.LengthCount | src/htsmsg_binary2.c:79-88 | the counter agrees with the bytes the length writer produces, for every 32-bit length |
| Binary2Length.FormsAreGroups | src/htsmsg_binary2.c:50-77 | the five forms of the writer, chosen by size, are exactly the groups of seven bits of the length |
| Binary2Length.LengthRoundTrip | src/htsmsg_binary2.c:34-77 | reading a written length gives it back and stops just behind it, for every 32-bit length |
| Binary2Length.LengthCutOff | src/htsmsg_binary2.c:34-77 | a length cut off reads as more than the bytes there are |
| Binary2.RoundTripAt | src/htsmsg_binary2.c:93-209 | reading the written form of a message at any nesting level gives the message back, truth values as 0 or 1 |
| Binary2.RoundTrip | src/htsmsg_binary2.c:93-209 | the same for a whole buffer below 2^31 bytes |
| Binary2.PlainIsWrittenTheSame | src/htsmsg_binary2.c:337-395 | what is read back is written as the same bytes |
| Binary2.AcceptedIsNoLonger | src/htsmsg_binary2.c:93-209 | whatever bytes are accepted, the message is well-formed and is written in at most as many bytes |
| Binary2.ReadWriteRead | src/htsmsg_binary2.c:93-209 | reading any accepted bytes, writing and reading again settles at once |
| Binary2Code.FieldLength | src/htsmsg_binary2.c:280-315 | the length counted for a field is that of its written content |
| Binary2Code.Count | src/htsmsg_binary2.c:320-333 | the separate counting pass gives exactly the number of bytes written, at every nesting level, in 32-bit arithmetic |
| Binary2Code.WriteLength | src/htsmsg_binary2.c:50-77 | the bytes of the length are stored at the pointer, nothing else changes, and the pointer moves past them |
| Binary2Code.Write | src/htsmsg_binary2.c:338-395 | the written form is stored in place and nothing else in the buffer changes |
| Binary2Code.ReadFields | src/htsmsg_binary2.c:93-209 | the parser computes the reading function; it returns -1 exactly when the bytes are refused and 1 exactly when a field points into the buffer |
| EpgDb.FramedRoundTrip | src/htsmsg_binary2.c:246-275 | a framed message is read back whatever follows it, with the number of bytes it took |
| EpgDb.CutOffIsRefused | src/htsmsg_binary2.c:246-275 | every strict prefix of a framed message below 2^31 bytes is refused |
| EpgDb.CutFileLoads | src/epgdb.c:191-224 | a file cut off anywhere yields exactly the messages that are whole in it, if none is shorter than five bytes |
| EpgDb.LoadedIsSavedIff | src/epgdb.c:191-224 | a file is read back to exactly the messages it was made of if and only if there are none, or it is below 4 GiB and its last message has at least five bytes |
| EpgDb.Serialize | src/htsmsg_binary2.c:419-441 | the framed bytes, exactly when they fit the limit |
| EpgDb.Save | src/epgdb.c:266-287 | the file is the stream of the messages of at most 64 KiB |
| EpgDb.Deserialize | src/htsmsg_binary2.c:214-275 | the frame reader, with the buffer kept exactly when a field of the message points into it |
| EpgDb.LoadFile | src/epgdb.c:191-224 | the loop loads what the load function says |
| EsFilter.MasksDisjoint | src/esfilter.h:47-66 | no stream type belongs to two classes |
| EsFilterLaws.OverRulesIs | src/esstream.c:283-428 | the rules of a class end in an EXCLUSIVE hit exactly when there is one, and then just the first stream of the first such rule is picked for the class |
| EsFilterLaws.BuildIsGrouped | src/esstream.c:226-443 | the result holds streams of the service, none twice, no more than there are, grouped in class order |
| EsFilterLaws.BuildSelects | src/esstream.c:226-443 | a stream is selected if and only if there are no rules at all, its class has none, it is the exclusive one of its class, or its class has no exclusive hit and it was used or not ignored |
| EsFilterMarks.SelectionByRules | src/esstream.c:378-443 | in a class with rules but no exclusive hit a stream is selected if and only if some rule picks it or neither IGNORE nor ONE_TIME hits it; which rule picks which stream is said without loops, by what earlier pairs of rule and stream picked |
| EsFilterMarks.EmptyPicksFirst | src/esstream.c:404-407 | an EMPTY rule picks a stream it hits if and only if no earlier pair of rule and stream is hit by USE, ONE_TIME or EMPTY |
| EsFilterMarks.OneTimeKeepsFirst | src/esstream.c:385-398 | a ONE_TIME rule on its own keeps exactly the first stream it hits |
| EsFilterMarks.OncePerLanguageIff | src/esstream.c:385-398 | a ONE_TIME rule on its own keeps exactly the first stream of each language it hits if and only if all streams it hits have one language |
| EsFilterMarks.SecondLanguageDropped | src/esstream.c:385-398 | two audio streams of different languages: the second is dropped although it is the first of its language |
| EsStream.ElementarySet.Add | src/esstream.c:180-192 | a stream is added to list and scratch array once, and the array has room |
| EsStream.ElementarySet.Alone | src/esstream.c:413-425 | the roll-back removes exactly the streams of this class, then the exclusive one is added |
| EsStream.ElementarySet.OverStreams | src/esstream.c:284-427 | one rule over all streams, with its running stream index, is the rule function |
| EsStream.ElementarySet.FilterBuild | src/esstream.c:226-443 | the nested loops leave the filtered list that the selection gives |
| EpgGrab.RunKeepsInv | src/epggrab.c:161-228 | every run of producers and data thread keeps the invariant on mutex, queues and sleeping |
| EpgGrab.OuterQueueIsExact | src/epggrab.c:161-228 | with the mutex free a module stands in the outer queue once if it has data and not at all otherwise |
| EpgGrab.NothingLost | src/epggrab.c:161-228 | in every state what was queued for a module is what was processed, then what is in hand, then what waits, in order |
| EpgGrab.NoLostWakeup | src/epggrab.c:161-228 | the data thread never sleeps, without having been signalled, while any data is queued |
| HtsBuf.Queue.Append | src/htsbuf.c:94-123 | the content grows by the bytes appended and an exact size stays exact |
| HtsBuf.Queue.AppendPrealloc | src/htsbuf.c:128-142 | the same for a chunk handed over whole |
| HtsBuf.Queue.Read | src/htsbuf.c:147-170 | the first bytes are taken off the content; an exact size stays exact if and only if the unfilled room of the freed chunks vanishes in 32 bits |
| HtsBuf.Queue.Find | src/htsbuf.c:178-193 | the least position of the byte, -1 if there is none |
| HtsBuf.Queue.Peek | src/htsbuf.c:199-217 | the first bytes, with nothing changed |
| HtsBuf.Queue.AppendQueue | src/htsbuf.c:306-318 | the content of the other queue follows and the other queue is empty |
| HtsBuf.Queue.ToString | src/htsbuf.c:590-597 | as many bytes as the size says, which is the content when the size is exact |
| HtsBuf.FullLosesNothing | src/htsbuf.c:67-74 | chunks filled to their end lose nothing, so preallocated queues stay exact |
| HtsBuf.SizeGoesWrong | src/htsbuf.c:67-74 | a new queue to which one byte is appended and from which it is read again is empty, and its size is 2^32 - 999 |
| Escape.EscapeJson | src/htsbuf.c:544-583 | copying runs between escapes gives the literal |
| Escape.JsonRoundTrip | src/htsbuf.c:544-583 | the literal denotes the string by section 7 of RFC 8259 |
| Escape.JsonIsUtf8 | src/htsbuf.c:544-583 | the literal of a UTF-8 string is UTF-8 |
| Escape.EscapeHeader | src/htsbuf.c:488-539 | copying runs between escapes gives the header form |
| Escape.HeaderRoundTrip | src/htsbuf.c:488-539 | the header form consists of attr-char and %XX only (section 3.2.1 of RFC 8187) and decodes to the string |
| Netmask.SamePrefix | src/access.c:386-412 | the loop over whole bytes and the mask on the last compare exactly the first prefixlen bits |
| Netmask.Verify | src/access.c:357-420 | an address is accepted if and only if some entry of its family agrees with it on its first prefixlen bits |
| Netmask.MadeCovers | src/access.c:999-1013 | an IPv4 entry made from an address and a length covers exactly the addresses that agree with it on that many bits |
| Netmask.MappedIsPlain | src/access.c:364-390 | on every list an IPv4-mapped source gets the verdict of its IPv4 address, which is whether some IPv4 entry agrees with its bits from the 97th on |
| Netmask.EmbeddedIsLastBits | src/access.c:364-372 | the IPv4 address taken from a mapped source is the number its last 32 bits spell |

## Left out

- XMLTV ids: events found or inserted by id are searched with another comparator in the start-ordered tree; only the time-keyed path is modelled.
- Red-black trees: schedules are ordered sequences; differences of start times are taken to fit the comparator's int.
- Event ids, the clock and the cut window are parameters of the operations; re-arming of timers is not modelled.
- Running state: an event's flag may change at any time, but the stop time that `_epg_broadcast_update_running` writes is not modelled.
- DVR, HTSP and logging callbacks, the lists of unreferenced and updated objects, and all metadata of events.
- Cron.CronNext: ends where the broken-down time is found; `mktime`, time zones, daylight saving and the fallback of ten minutes are not modelled, nor is choosing the earliest of several entries.
- CronSpec.FieldParsed: printed fields use numbers; month and day names are read by the modelled parser but not printed. Numbers too large for an int are not modelled.
- HttpExtra: socket errors, tearing a connection down, liveness and websocket framing; the queue size is an unbounded integer.
- HttpExtra.NothingLost: with a reply under way the chunk being completed comes between; the invariant covers it.
- Doubles in messages: the binary writer aborts on them. Memory accounting, copying of messages and the JSON and XML readers.
- Binary2.RoundTrip: stated below 2^31 bytes, where the writer's int lengths end.
- EpgDb.Deserialize: a length whose 32-bit sum with its own size wraps makes the reader go beyond the buffer; the model stops with an outcome of its own.
- Gzip, versions and signal handling of the database file.
- The use and filter flags of the CA ids of a stream; they do not influence which streams are selected.
- EpgGrab: shutdown and allocation failures.
- HtsBuf.Queue.Read: sizes are taken to fit the int the loops use; printing and dumping are not modelled.
- Escape: the XML and URL forms.
- Netmask.Verify: parsing of addresses and host byte order.
- The channel list, bouquets, configuration migrations, property tables and user interface.
