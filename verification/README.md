# Verification of the bbd drip-irrigation controller

A Dafny model of bbd and proofs about it. `dafny verify dfyconfig.toml` checks everything.

The system keeps watering schedules in a server database. A receiver process serves them over a
small binary protocol; a client daemon keeps its own copy and opens and closes valves by the
clock. A separate Arduino library talks to a GSM modem.

| files | part of the system |
|---|---|
| `Valves`, `Scheduler`, `SchedulerHistory`, `SchedulerClock`, `SchedulerDay` | the client's valve table and scheduler thread |
| `Net`, `Wire`, `Client` | a connection, both codecs, framing, and the client's receive-decode-install code |
| `Store`, `SentMarks`, `Receiver` | the schedule table, its stored functions, the marking of rows, and the server's handling of a request |
| `EndToEnd` | one request from the table to the scheduler through all of the above |
| `Sync`, `SyncHistory`, `SyncLoss`, `SyncProgress`, `SyncRequests`, `SyncRefinement`, `SyncOneDevice` | the synchronisation protocol, step by step, and the program's operations as runs of it |
| `Gsm`, `GsmWaits` | the modem's receive automaton and the AT command loop |
| `Matching`, `Decimal`, `TextFinder` | the stream matcher, the number parser and `getString` |

Code that changes state is a class with methods over arrays and fields; each method is proved
against a function on values (`Scheduler.Next`, `Sync.After`, `Gsm.NextRx`, ...), and the results
are lemmas about whole histories of that function.

What the proofs found out about the code:

- "A valve is open exactly while one of its entries contains the minute" is false in general. For
  a forward clock within one day it holds for a list if and only if the list *hands over*: every
  minute after an entry's end that is still wanted is wanted by a later entry that starts after
  that end. For an arbitrary clock it holds if and only if the valve has one window.
- Over replacements of the list, too, a valve is in the state that the history asks for if and only
  if no pass closes it for an entry that is left while another contains the minute.
- A valve that a new list no longer names keeps its state until a later list names it.
- A lost response is not noticed: its rows are marked sent all the same. The loss is harmless if and
  only if the client already holds every row of that response which is still active.
- A deactivation reaches the client with its next CHECK_NEW if and only if the table has something
  unsent for the device at that moment.
- `deactivated_on` can be recorded for a schedule that a client still has. One GET_ACTIVE does so if
  and only if some client, other than one whose list the response replaces, lists an inactive
  schedule. Three conditions together exclude it over whole runs, and each is shown to be needed: one
  device, no deactivation in the middle of a request, GET_ACTIVE only from a client with an empty
  list. Lost responses and restarts do no harm here.
- One active schedule that does not fit 16 bits makes every fetch for its device fail. A valve id of
  65536 is accepted by the table and by the web form. So is, by the table only, a negative stop time,
  since both CHECK constraints test `start_time`; the web form rejects it
  (server/src/web/src/bbd/views.py:83-84).
- The scheduler's 16-bit allocation holds 6553 entries, although a response can carry 8191.
- A device without valves makes `cc_set_valve_info` fail, since receiving no bytes is an error there.
- `findUntil` never misses an occurring target if and only if all its characters are equal.
- `getString` returns the buffer length, not the text length, when it meets the stop character.
- `getValue` adds the character code before it subtracts that of '0', so the largest magnitude
  read without 32-bit overflow is 2147483599.

Assumptions: one pass of the scheduler loop is atomic with respect to replacements of the list;
minutes of the day are 0..1439; `struct schedule_status` takes 10 bytes; the receiver serves one
request at a time, as its loop does; a client sends its next request only when it is done with the
last one. A response is installed at any time after it was sent, a client may restart at any moment,
and web actions may come between any two steps.

## Model

| member | source | states |
|---|---|---|
| Valves.FindAfterSet | client/daemon/src/valve_manager/valve_manager.c:27-50 | get after set on the linear-search table: only the valve that was set changes, only if it is known; also with repeated ids |
| Valves.ValveManager.InitSetValves | client/daemon/src/valve_manager/valve_manager.c:15-25 | the table becomes the given ids, every one closed |
| Valves.ValveManager.SetValveState | client/daemon/src/valve_manager/valve_manager.c:27-39 | the first entry with the id gets the state and 0 is returned; otherwise nothing changes and 1 is returned |
| Valves.ValveManager.GetValveState | client/daemon/src/valve_manager/valve_manager.c:41-50 | returns what FindAfterSet speaks of, or 1 for an unknown valve |
| Scheduler.ScheduleManager.Visit | client/daemon/src/schedule_manager/schedule_manager.c:39-55 | the two tests of the loop body, in order, flip the flag and command the valve exactly when membership in the window changed |
| Scheduler.ScheduleManager.Pass | client/daemon/src/schedule_manager/schedule_manager.c:37-58 | one iteration of the endless loop is the step Next(Sample): flags, valve table and commands |
| Scheduler.LoopIsPass | client/daemon/src/schedule_manager/schedule_manager.c:37-58 | the loop, entry by entry, leaves every flag equal to start <= minute <= stop, whatever list, flags, table and minute it began with |
| Scheduler.PassDecided | client/daemon/src/schedule_manager/schedule_manager.c:37-58 | a known valve ends up with the command of the highest-index entry for it whose flag changed |
| Scheduler.PassLeavesAlone | client/daemon/src/schedule_manager/schedule_manager.c:37-58 | a valve none of whose entries changed is untouched |
| Scheduler.ScheduleManager.SetNewSchedules | client/daemon/src/schedule_manager/schedule_manager.c:64-86 | replaces the list with all flags false and valves as they are; in bounds exactly up to 6553 entries |
| Scheduler.StatusAllocationExact | client/daemon/src/schedule_manager/schedule_manager.c:65-77 | the 16-bit byte size covers the list if and only if it has at most 6553 entries |
| Scheduler.ScheduleManager.RunThread | client/daemon/src/schedule_manager/schedule_manager.c:32-59 | the thread over any samples of the clock and replacements between passes is Run |
| SchedulerHistory.FlagsFollowClock | client/daemon/src/schedule_manager/schedule_manager.c:37-77 | after any history a flag is set exactly if its entry contains the latest minute sampled since the installation |
| SchedulerHistory.FollowsHistoryExact | client/daemon/src/schedule_manager/schedule_manager.c:32-82 | any lists, passes at any minutes and replacements: after every event the valve is open iff it is watered at the latest sampled minute, or was to be open at the latest replacement and has not been watered since, if and only if no pass cuts it off |
| SchedulerHistory.HandOverFollowsHistory | client/daemon/src/schedule_manager/schedule_manager.c:32-82 | that holds for lists with any number of entries that hand over, replaced at any moments, while the clock moves forward between the replacements |
| SchedulerHistory.ValveFollowsHistory | client/daemon/src/schedule_manager/schedule_manager.c:32-82 | at most one entry per list for a known valve, any passes and replacements: open iff its entry contains the latest sampled minute, or it was open at the latest replacement and its entry has contained no sampled minute since |
| SchedulerClock.PassConsistent | client/daemon/src/schedule_manager/schedule_manager.c:37-58 | a pass keeps "open iff some entry is active" if and only if it does not leave an entry, as its last change for the valve, while another contains the minute |
| SchedulerClock.ForwardClockExact | client/daemon/src/schedule_manager/schedule_manager.c:32-59 | for a newly installed list: open iff some entry contains the minute, after every pass of every forward run of one day, if and only if the list hands over |
| SchedulerClock.InOrderIsRight | client/daemon/src/schedule_manager/schedule_manager.c:37-56 | disjoint windows in start order: after every pass of a forward run the valve is open iff some window contains the minute, also when one entry is left and another entered in the same pass |
| SchedulerClock.AnyClockExact | client/daemon/src/schedule_manager/schedule_manager.c:32-59 | the same for runs of any minutes in any order, if and only if all windows of the valve that touch the day coincide |
| SchedulerDay.WaterDelivered | client/daemon/src/schedule_manager/schedule_manager.c:35-50 | disjoint windows in start order, every minute sampled: the minutes of water are the sum of the windows' lengths within the day, stop minute included |
| SchedulerDay.CommandsAlternate | client/daemon/src/schedule_manager/schedule_manager.c:39-55 | between replacements the commands of one entry alternate OPEN, CLOSED, starting with OPEN, one for each crossing of a window edge |
| SchedulerDay.UnlistedValveIsStuck | client/daemon/src/schedule_manager/schedule_manager.c:64-82 | a valve that the new list does not name keeps its state through every later pass of that list |
| SchedulerDay.OverlapIsNotFollowed | client/daemon/src/schedule_manager/schedule_manager.c:48-55 | a run of two overlapping windows after which the valve is closed although one contains the minute |
| SchedulerDay.OutOfOrderIsNotFollowed | client/daemon/src/schedule_manager/schedule_manager.c:37-56 | the same for disjoint windows listed against their start order |
| Wire.PrepToSend16 | server/src/receiver/src/socket_data/socket_data.cpp:25-30 | the bytes sent are big-endian on a host of either byte order |
| Wire.PrepRecved16 | client/daemon/src/socket_data/socket_data.c:41-46 | the value read back does not depend on the host |
| Wire.CraftActiveSchedulesRsp | server/src/receiver/src/socket_data/socket_data.cpp:109-119 | the buffer holds the encoded list; the 16-bit allocation is long enough exactly up to a 16-bit count of 8191 |
| Wire.CraftDeviceValvesRsp | server/src/receiver/src/socket_data/socket_data.cpp:121-131 | the same for valve ids, up to 32767 |
| Wire.SendRspMsg | server/src/receiver/src/socket_data/socket_data.cpp:92-107 | the frame is the length and the payload; its 16-bit size wraps exactly beyond 65533 bytes of payload |
| Wire.FrameSizesExact | server/src/receiver/src/socket_data/socket_data.cpp:92-131 | no size wraps if and only if there are at most 8191 schedules, or 32766 valve ids |
| Wire.SchedulesRoundTrip | client/daemon/src/socket_data/socket_data.c:141-153 | decoding undoes encoding for every list of schedules |
| Wire.ValvesRoundTrip | client/daemon/src/socket_data/socket_data.c:155-157 | decoding undoes encoding for every list of valve ids |
| Wire.ScheduleLayout | server/src/receiver/src/socket_data/socket_data.cpp:109-119 | schedule i stands at byte 8*i as id, valve, start and stop, two bytes each, high byte first |
| Wire.ValveLayout | server/src/receiver/src/socket_data/socket_data.cpp:121-131 | valve id i stands at byte 2*i, high byte first |
| Wire.FrameLayout | server/src/receiver/src/socket_data/socket_data.cpp:92-107 | the frame starts with the payload's length, high byte first, and goes on with the payload |
| Wire.FrameRoundTrip | server/src/receiver/src/socket_data/socket_data.cpp:92-107 | framing and taking apart undo each other, both ways |
| Wire.SendSocketHeader | client/daemon/src/socket_data/socket_data.c:69-83 | the six bytes of the request header: magic number in bytes 0 and 1, device, type, size in bytes 4 and 5, high byte first |
| Wire.RecvSocketHeader | server/src/receiver/src/socket_data/socket_data.cpp:72-90 | 1 when the connection closes before the first byte; otherwise the header is decoded, on either host, from the six bytes that arrived, or from those that arrived and whatever the buffer held behind them |
| Wire.HeaderRoundTrip | server/src/receiver/src/socket_data/socket_data.cpp:72-90 | the header read is the header sent, and every six bytes are some header |
| Client.ClientController.ReceiveSchedules | client/daemon/src/client_controller.c:56-150 | the return codes; a complete empty response leaves the list alone, any other installs exactly the decoded schedules; one cut short is decoded as if whole, from what arrived and arbitrary bytes behind it; within the allocation exactly up to 6553 of them |
| Client.ClientController.SetValveInfo | client/daemon/src/client_controller.c:12-54 | a non-empty response, complete or cut short in the same way, replaces the valve table by the decoded ids, all closed; an empty one is error 4 and changes nothing |
| Client.ResponseArrives | client/daemon/src/client_controller.c:76-97 | framed by the receiver and received by the client, the list installed is the list sent |
| Store.GetActiveLists | server/src/db/bbd.sql:50-68 | the query returns every active row of the device once, and nothing else |
| Store.Database.WebCreateNewSchedule | server/src/db/bbd.sql:141-160 | exactly if the valve exists and start is in 0..1440: one row more, active and unsent, with a new largest id; its device's query then returns it last, every other query is unchanged; ids stay distinct, and the sequence advances in any case |
| Store.Database.WebDeactivateScheduleRequest | server/src/db/bbd.sql:205-212 | every query afterwards returns what it did before without that schedule; on the row only active changes, and no other row changes |
| Store.DeactivatedIsGone | server/src/db/bbd.sql:205-212 | the query after a deactivation is the query before it without the schedule, for every table and device |
| Store.Database.DbGetActiveSchedules | server/src/receiver/src/db/db.cpp:33-57 | the fetched schedules and sent flags, or 1 exactly when some column of some row lies outside 0..65535 |
| Store.FetchSucceedsExact | server/src/receiver/src/db/db.cpp:45-53 | a fetch succeeds if and only if id, valve, start and stop of every active row of the device lie in 0..65535 |
| Store.OversizedValveIsAccepted | server/src/db/bbd.sql:11-25 | an existing valve with an id beyond 16 bits is accepted for a schedule that no fetch converts |
| Store.DeviceValvesExact | server/src/db/bbd.sql:38-48 | the query returns every valve of the device and no other |
| Store.DeviceValvesOnce | server/src/db/bbd.sql:11-16 | no valve is returned twice, since the table's ids are distinct |
| Store.Database.DbGetDeviceValves | server/src/receiver/src/db/db.cpp:10-31 | the fetched valve ids, or 1 exactly when one lies outside 0..65535 |
| Store.NegativeStopIsAccepted | server/src/db/bbd.sql:25-26 | the table's constraints accept a stop time that no fetch converts (the web form does not) |
| Store.Database.SetSchedulesSent | server/src/receiver/src/db/db.cpp:60-83 | the marking loop, ended by the commit inside it after any number of first marks, or by a failing database after any number of rounds |
| SentMarks.MarkLoopExact | server/src/receiver/src/db/db.cpp:70-76 | an unsent row whose id is the k-th of the loop is marked, with the time, if and only if at most `extra` of the ids before it had something to mark |
| SentMarks.RequestMarksExact | server/src/receiver/src/main.cpp:136-148 | which rows a request marks, exactly, and with what time: the same for both kinds, and whether the send succeeded or failed |
| SentMarks.RequestRecordsExact | server/src/receiver/src/main.cpp:145-153 | only GET_ACTIVE records deactivations, of every inactive row without a time; apart from marks a request changes nothing else |
| Store.Database.DeactivationRequestsDone | server/src/db/bbd.sql:83-94 | row by row: the inactive rows without a time, of every device, get this one; nothing else changes, and no query notices |
| Store.RecordingIsUnseen | server/src/db/bbd.sql:83-94 | recording deactivations changes no device's query, whatever the table |
| Receiver.Server.HandleSchedules | server/src/receiver/src/main.cpp:119-198 | fetch, need_update, frame, mark and close in this order: the bytes sent and the table left, also when the send fails, marking is cut short or closing fails; nothing at all when the fetch fails |
| Receiver.Server.HandleValves | server/src/receiver/src/main.cpp:93-118 | the device's valves encoded and framed; nothing when the fetch or the send fails |
| Receiver.Server.Serve | server/src/receiver/src/main.cpp:84-200 | magic number 38017: type 1 answers with the valves; type 2 with all active schedules whatever their marks, and records deactivations; type 3 with all of them if one is unsent and with the bytes 0, 0 otherwise, and records none; anything else gets no answer and changes nothing |
| EndToEnd.Exchange | server/src/receiver/src/main.cpp:76-200 | a schedule request from header to scheduler, on hosts of any byte order: when fetch and send succeed and at most 6553 schedules are active, type 2, or type 3 with something unsent, makes the scheduler's list the device's active rows with every flag false; otherwise, or with nothing active, the controller stays; the table is marked; a failed fetch changes neither side |
| EndToEnd.FrameIsDelivered | client/daemon/src/client_controller.c:70-100 | a complete response is decoded into the list that was sent |
| Sync.StepKeeps | server/src/receiver/src/main.cpp:119-198 | every step, web actions between fetch, send, mark and install included, keeps the invariant that ties the snapshot in flight and the marks still to come to the list the client has or will have |
| Sync.RunsKeep | server/src/receiver/src/main.cpp:119-198 | the same over every run from every state that has the invariant |
| Sync.ClientsAreInformed | server/src/receiver/src/main.cpp:119-198 | in every reachable state, unless a response to the device was lost since its client started: an answered client with nothing on its way holds every active and sent schedule of its device, with the same valve, start and stop; one with a response on its way will when it installs it |
| SyncLoss.LossExact | server/src/receiver/src/main.cpp:184-196 | after a lost response every later state, up to the client's next start or loss, has the client informed if and only if it already held every row of the snapshot that is still active |
| SyncLoss.LossIsNotNoticed | server/src/receiver/src/main.cpp:184-196 | one lost response leaves an active and sent schedule that the client does not have |
| SyncHistory.RowsOnlyMoveForward | server/src/db/bbd.sql:59-94 | over any run: sent and its time are set once, active is only cleared, the deactivation time is set once and only on an inactive row |
| SyncHistory.SentOnlyIfFetchedActive | server/src/receiver/src/main.cpp:164-196 | a row becomes sent only in a request whose fetch, the latest in the run, found that very row active on that device |
| SyncHistory.InactiveIsNotFetched | server/src/db/bbd.sql:59-66 | a row inactive at some moment is in no response fetched then or later |
| SyncProgress.ExchangeProgress | server/src/receiver/src/main.cpp:164-197 | one CHECK_NEW exchange strictly lowers the number of unsent schedules if there are any, however early marking is cut short; otherwise the response is empty and the table stays |
| SyncProgress.CreatedIsUnsent | server/src/db/bbd.sql:141-160 | a create with a wired valve, a start in 0..1440 and a SMALLINT stop leaves one more unsent schedule to the valve's device and none to others; any other create leaves the rows alone; an id is used up in any case |
| SyncProgress.CreatedIsServed | server/src/receiver/src/main.cpp:156-184 | after the next CHECK_NEW the client has the created schedule, with its valve, start and stop |
| SyncProgress.RestartedIsExact | server/src/receiver/src/main.cpp:119-141 | a client that has restarted has, after one GET_ACTIVE, exactly the active schedules, also when there are none |
| SyncProgress.ExchangesConverge | server/src/receiver/src/main.cpp:156-197 | with k unsent schedules and no web actions, any k exchanges leave nothing unsent and an empty next response, and if k >= 1 the client's list is the table's active list, entry for entry |
| SyncRequests.RequestIsRun | server/src/receiver/src/main.cpp:119-198 | the handling of either request as the receiver's code does it, its response delivered or lost, marking cut short anywhere and closing failing or not, is a legal run of the step-by-step protocol with the same state at its end |
| SyncRefinement.Create | server/src/db/bbd.sql:141-160 | the stored function, at any moment, is the protocol's create step: same rows, same next id |
| SyncRefinement.Deactivate | server/src/db/bbd.sql:205-212 | likewise for a deactivation |
| SyncRefinement.Request | server/src/receiver/src/main.cpp:76-200 | serving a request is a legal run with the same table at its end; the client has then installed what the bytes sent decode to, if they arrived, and is as it was otherwise |
| SyncProgress.DeactivationNoticedExact | server/src/receiver/src/main.cpp:170-182 | after the exchange that follows a deactivation the client still lists the schedule if and only if the table then had nothing unsent for the device; its list is then unchanged |
| SyncOneDevice.DoneIsNeverListed | server/src/receiver/src/main.cpp:126-153 | one device, no deactivation in the middle of a request, GET_ACTIVE only from a client with an empty list: no schedule with a deactivation time is ever in the client's list, whatever is lost, created or restarted and when |
| SyncOneDevice.GetActiveExact | server/src/receiver/src/main.cpp:119-155 | for any number of devices, after a GET_ACTIVE, delivered or not, no client lists a schedule with a deactivation time if and only if before it no client, other than one whose list the response replaces, listed an inactive schedule |
| SyncOneDevice.OtherDeviceRecords | server/src/db/bbd.sql:89-92 | with two devices the start of one breaks it for the other |
| SyncOneDevice.DeactivatedInMidRequest | server/src/receiver/src/main.cpp:136-153 | a deactivation in the middle of a request breaks it |
| SyncOneDevice.RunningClientAsksAgain | client/daemon/src/client_controller.c:76-100 | GET_ACTIVE from a running client with nothing active breaks it |
| Gsm.Modem.RxInit | GSMSHIELD/GSM.cpp:691-701 | the automaton starts afresh with an empty, NUL-ended buffer |
| Gsm.Modem.StoreByte | GSMSHIELD/GSM.cpp:569-595 | after any byte the buffer holds exactly the first 200 bytes received, ended by NUL at the next write position |
| Gsm.Modem.IsRxFinished | GSMSHIELD/GSM.cpp:517-628 | one poll is one step of the automaton, returns its status, and keeps the buffer's invariant |
| Gsm.Modem.WaitResp | GSMSHIELD/GSM.cpp:505-515 | stops at the first poll whose status is not NOT_FINISHED and returns that status |
| GsmWaits.AfterFirstByte | GSMSHIELD/GSM.cpp:552-595 | once a byte was seen the state never goes back, every batch is received in order, and the timer runs from the latest read |
| GsmWaits.TimeoutExact | GSMSHIELD/GSM.cpp:525-551 | RX_TMOUT_ERR at a poll if and only if no poll has seen a byte and it is the first at which the start timeout has elapsed |
| GsmWaits.FinishedExact | GSMSHIELD/GSM.cpp:560-624 | RX_FINISHED at a poll if and only if a byte was seen in time and it is the first poll since at which the inter-character timeout has passed since the latest read; something was received |
| GsmWaits.TimeoutInTrueTime | GSMSHIELD/GSM.cpp:525-551 | TimeoutExact in true milliseconds instead of the wrapped difference, under the same conditions on the clock |
| GsmWaits.FinishedInTrueTime | GSMSHIELD/GSM.cpp:560-624 | FinishedExact in true milliseconds, under those conditions |
| GsmWaits.WaitEnds | GSMSHIELD/GSM.cpp:505-515 | the wait has ended at the latest with a poll at which the start timeout has elapsed without any byte, or the inter-character timeout since the latest read, in true time; any number of polls in one millisecond, wherever millis() wraps; the clock does not run backwards and neighbouring polls are less than 2^32 - 2^16 ms apart |
| GsmWaits.WaitEndsWithinPolls | GSMSHIELD/GSM.cpp:505-515 | with polls at different milliseconds and n bytes, within start timeout + n * inter-character timeout + 1 polls |
| GsmWaits.ElapsedIsTrue | GSMSHIELD/GSM.cpp:540 | the unsigned difference of wrapped counter values is the true time within one turn of the counter |
| Gsm.Modem.IsStringReceived | GSMSHIELD/GSM.cpp:638-688 | true exactly if the text is in the first 200 bytes received, before any NUL |
| Gsm.StrstrExact | GSMSHIELD/GSM.cpp:643-668 | strstr in the NUL-ended buffer finds the text exactly if it stands at some position of the bytes received, within the first 200 and before any NUL |
| Gsm.OutcomeExact | GSMSHIELD/GSM.cpp:438-452 | an attempt's outcome is NO_RESP iff its wait times out, OK iff its wait finishes and the text was received, DIF_RESP otherwise |
| Gsm.Modem.SendATCmdWaitRespFlash | GSMSHIELD/GSM.cpp:469-503 | OK iff in some attempt a reception finishes that has the text at some position within its first 200 bytes and before any NUL; as many commands as the index of the first one that does; otherwise all attempts, and NO_RESP iff there is none or the last one times out |
| Gsm.Modem.SendATCmdWaitResp | GSMSHIELD/GSM.cpp:423-458 | the same report; the buffer then holds what the extra wait received |
| Gsm.ReportsAgree | GSMSHIELD/GSM.cpp:423-503 | the same replies admit one report only, so the overloads agree |
| TextFinder.WideTextFinder.FindUntil | GSMSHIELD/WideTextFinder.cpp:51-78 | stops as the matcher says, for strings of any length, with the lengths cut to a byte as in the code |
| Matching.FindIsSound | GSMSHIELD/WideTextFinder.cpp:61-77 | true: the last characters read spell the target; false while the stream still speaks: they spell the terminator |
| Matching.FindsFirstOccurrence | GSMSHIELD/WideTextFinder.cpp:61-77 | stops exactly at the end of the first occurrence if the target's first character does not appear earlier and the terminator has not occurred by then |
| Matching.NeverMissesExact | GSMSHIELD/WideTextFinder.cpp:62-69 | without a terminator, findUntil answers true for every stream without NUL in which the target occurs, if and only if all characters of the target are equal |
| Matching.FoundIsAnswer | GSMSHIELD/WideTextFinder.cpp:61-77 | without a terminator and NULs, findUntil answers true exactly if the matcher ever completes |
| TextFinder.WideTextFinder.GetString | GSMSHIELD/WideTextFinder.cpp:85-113 | text, padding, result and characters consumed in each case; nothing is written at or past max(length, 1) |
| TextFinder.TextLengthExact | GSMSHIELD/WideTextFinder.cpp:90-108 | the text put into the buffer has neither a NUL nor the stop character, and ends at one of them, at the end of the stream or when the buffer is full |
| TextFinder.WideTextFinder.GetValue | GSMSHIELD/WideTextFinder.cpp:126-149 | value, characters consumed and absence of 32-bit overflow, as Decimal.Result, Consumed and Safe say |
| Decimal.ReadingUndoesPrinting | GSMSHIELD/WideTextFinder.cpp:126-149 | the printed form of any n, with skip characters after its first, is read back as n, one character past it is consumed, and no step overflows if and only if the magnitude of n is at most 2147483599 |
| Decimal.MinusNegates | GSMSHIELD/WideTextFinder.cpp:132-147 | character 45 in front of a number negates it, unless 45 is the skip character |
| Decimal.OtherEnds | GSMSHIELD/WideTextFinder.cpp:143-145 | any character outside 48..57 but the skip character ends the number and is consumed |
| Decimal.OneDigit | GSMSHIELD/WideTextFinder.cpp:141-142 | a single character c of 48..57 is read as c - 48 |
| Decimal.DigitAppends | GSMSHIELD/WideTextFinder.cpp:135-142 | a character c of 48..57 behind a number makes it 10 * number + c - 48; the skip character changes nothing, even if it is a digit |
| Decimal.NothingIsZero | GSMSHIELD/WideTextFinder.cpp:132-138 | a stream that ends, or has a NUL, before any of 45 and 48..57 gives 0 |

## Left out

- Sub-iteration races of the scheduler: `_ss` and `_ss_len` are read outside the mutex; a pass is one step here.
- Scheduler.ScheduleManager.SetNewSchedules: says nothing about memory after the first write outside a too short allocation; the same holds for Wire.CraftActiveSchedulesRsp, Wire.CraftDeviceValvesRsp and Wire.SendRspMsg.
- Sync.ClientsAreInformed: lists longer than 6553 entries, which overrun the client's allocation, are not excluded there.
- EndToEnd.Exchange: says nothing about a failing send or a longer list; Client.ClientController.ReceiveSchedules does.
- Sync: a failed fetch changes nothing and is not a step; a failing send is `Send(false)`.
- TextFinder.WideTextFinder.GetValue: speaks only of calls that return; with a skip character of NUL the code reads for ever once the stream is silent.
- The timer inside `WideTextFinder::read` (its sum wraps with millis()); a silent stream is one that has ended.
- `WaitResp` with an expected string: WaitResp followed by IsStringReceived.
- Running out of SERIAL ids, descriptions and creation times of rows.
- `GSM::begin`, `InitParam`, `Echo`, SIM900.cpp, inetGSM.cpp: device set-up and AT-command scripts.
- `getFloat`: floating point, and its overload without argument returns nothing.
- Sockets, threads, logging, daemonizing and the web pages, whose create and deactivate requests are the actions of Sync.
