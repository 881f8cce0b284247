# The nudge engine, and what it keeps

btw sends people their own reminders a few times a day. There is no plan of the day anywhere in it: a loop
looks at the clock every few minutes, and how many nudges a day holds, how far apart they come, what bedtime does to
one that is waiting, whether one repeats and whether a reminder's own floor is respected all follow from a few lines
of integer arithmetic over one pending row, one log and one stamp. This project models that engine and proves
those promises over whole runs; around it stand the other small protocols of the program: recovery codes,
sliding sessions, the login limiter, the backup loop, sortable ids and the migration runner.

## How it is laid out

| part | files |
|---|---|
| instants, whole seconds | `Clock.dfy` |
| a rhythm: awake, interval, due, since | `Rhythm.dfy` |
| the draw, in exact arithmetic | `Pick.dfy`, `Fairness.dfy` |
| rows and what each act does to them, as functions; what they read and do, in the rows' own terms | `Tables.dfy`, `Reads.dfy`, `Decisions.dfy` |
| the statements and the scheduler, as classes that change rows in place | `Scheduler.dfy` |
| whole runs of the scheduler beside presses, edits, losses and rhythm changes | `Runs.dfy`, `Spacing.dfy`, `Bedtime.dfy`, `Daily.dfy`, `Tight.dfy`, `AllDay.dfy`, `Response.dfy`, `Floors.dfy`, `NoRepeats.dfy` |
| overlapping passes, one SQL statement at a time | `Claims.dfy`, `Statements.dfy` |
| ids, the numerals under them and the order of texts | `Ids.dfy`, `Digits.dfy`, `Order.dfy` |
| recovery codes and recovery | `Codes.dfy`, `Recovery.dfy` |
| sessions, limiter, backups, migrations | `Sessions.dfy`, `Limiter.dfy`, `Backup.dfy`, `Migrations.dfy` |

Each part has the same shape. State is a value with a step function; where the program changes rows or fields in
place there is a class whose methods are proved to do exactly such a step; and the theorems are about runs:
sequences of states and events of any length, in any order the code allows. `Claims.dfy` has no class: there each
statement is a step by itself, so that passes can interleave, the methods for those statements are in
`Scheduler.dfy`, and the statements of one pass in a row come to what the whole of it does (`Statements.dfy`).
What a step does is also said case by case without naming the functions it is made of, in the lemmas called
`…Exactly` or `…ExactlyWhen` beside each of them. Instants and durations are nanoseconds and columns are whole
seconds, so every rounding the program makes is in the model. Where the program asks whether a moment has come
once in memory and once in SQL, the model asks it twice as well.

What the world does is an input and is left arbitrary unless a theorem says otherwise: when passes run, how
long a decided nudge is delayed, what the generator draws, what each push service answers, how far recording
gets before the process dies, when `derived.db` is deleted. A step is one whole consideration of one person or
one press of the button, except in `Claims.dfy`. A timezone is any pair of functions from instants: the local
minute, and when the local day began. The daily counts ask that the day be an ordinary one (the clocks do not
change in it) and that dates do not run backwards; any fixed offset satisfies both on every day
(`FixedOffsetDays`).

## What came out

- Counting what is recorded, a day holds at most its budget, whatever the passes, delays, presses and refused
  pushes, provided nothing decided on an earlier day was still waiting at waking. If something was, it holds at
  most the budget when the interval is a whole number of seconds, and otherwise at most one more. That one more is
  real under every rhythm with a window, a fixed offset and such an interval, on any day: decide on the day
  before, let the night go by with the program down, and let passes that decide and passes that claim follow each
  other closely (`Tight.OneOverIsReached`). With passes a second apart or more it never happens
  (`Daily.ApartDayHoldsTheBudget`). A push that was accepted and whose log row was never written is no part of
  any of these counts.
- Somebody without a window is sent at most the budget in any day and night, from any second on and in any zone,
  or at most one more when the budget does not divide a day into whole seconds.
- Somebody awake, with something to be told and a device to take it, is sent their next nudge within an interval,
  a tenth of one and two ticks of when their wait began, whether or not a row waits already. Under the rhythm
  nobody has changed, a day attended from waking until 21:33 holds exactly three; a row carried into it changes
  nothing unless its moment is later than 11:41.
- With a budget of none nothing is ever decided, and once nothing waits nothing scheduled is sent. A row that
  comes due while the person is asleep is dropped, and whatever is sent later was decided later. A reminder that
  was ended is not raised again, by either way of sending, until it is brought back.
- A pass sends a claimed nudge only to somebody its own reading of the clock finds awake. The delivery reads the
  clock again. What it sends and records before the next waking finds them awake if and only if less time went by
  since the pass's reading than was left until bedtime, and it can be more (`Bedtime.AwakeExactlyWhen`,
  `Bedtime.SentAfterBedtime`).
- A reminder that states a floor is never raised by the scheduler before that floor has passed since its last
  completed delivery, even if `derived.db` is lost in between.
- The same reminder comes twice running exactly when the second draw had nothing else to offer.
- However passes overlap, no scheduled nudge is sent twice. One is overwritten exactly when, between a pass's
  reading that nothing waits and its scheduling, another pass schedules one that nobody takes
  (`Claims.OverwritesExactlyWhen`). With passes one after another that never happens, and a claim gets its row
  exactly when no rhythm change cleared it meanwhile (`Claims.ClaimSucceedsExactlyWhen`).

## Where the code and its own words part

The model follows the code.

- `internal/store/nudges.go:47-51` says that what a failure between the two writes leaves is a stamp without its log row. The
  log row is written first, so what it leaves is a log row without its stamp (`NoStampWithoutLog`). A logged nudge
  is remembered by its reminder if and only if both writes went through (`StampedExactlyWhen`); after one that is
  not, the floor is measured from the stamp before it (`OfferedAfterLogOnly`), and a reminder that may be raised
  once a day can be raised twice in ten minutes (`LogWithoutStampRepeats`).
- `internal/pick/pick.go:80-86` says that a draw with nothing to weigh cannot be a scheduled one. That was so when every
  reminder had a floor; a floor must now be stated. A scheduled draw has nothing to weigh if and only if nothing in
  its pool states a floor and all of it was stamped at the very instant of the draw
  (`ScheduledWeightlessExactlyWhen`, `ScheduledDrawCanBeWeightless`).
- `internal/nudge/nudge.go:132-133` says that an evening that ran out before the nudge did drops it rather than sending it late.
  The evening may run out between the pass's reading of the clock and the sending, and then it is sent late
  (`SentAfterBedtime`).
- `internal/store/recovery.go:197-199` says that a failure between the two deletes of forgetting leaves nothing that could
  later be proved. In the order they come in, the attempt is left, and its code, typed in time, proves it
  (`ForgettingEndsAttempt`, exactly when; `HalfForgottenComesBack`, with any code).
- `internal/api/auth.go:156-158` says at most twice the rate across a boundary. It is fewer than twice, by one, and that
  is reached for every limit and every positive period. A limit below one still admits the call that opens a window.
- `internal/backup/pusher.go:123-125` says that the digest recorded is the one the probe took. It is the archive's own,
  read later; the two differ when `main.db` is written in between, and the archive's is the right one
  (`RememberedWasAccepted`, `SuccessMeansThereIsACopy`).
- `internal/store/store.go:180-182` says that a file added out of order still applies in the right place. It does in a database
  that has none of the steps that sort after it. In one that has them all it is applied if and only if it sorts
  last; otherwise it is passed over and the last step is run again, as far as that step can be
  (`AddedStepExactlyWhen`). Over a history of upgrades every build finds its own list applied if and only if each
  list extends the one before (`UpgradesFitExactlyWhen`).
- The repository's `README.md`, `docs/backend.md` and `docs/nudges.md` still speak in places of slots drawn ahead. There are none.

## Model

| member | source | states |
|---|---|---|
| Clock.DueTestsAgree | internal/nudge/nudge.go:122-131 | the test made in memory on a stored moment and the claim's test in SQL on a clock rounded down give the same answer at every instant |
| Rhythms.IntervalCoversWindow | internal/rhythm/rhythm.go:72-79 | the interval is never under a tick; budget times interval falls short of the waking window by less than a nanosecond a nudge, and not at all when the interval is whole seconds |
| Rhythms.FixedOffsetDays | internal/rhythm/rhythm.go:126-137 | under a fixed offset the awake instants of a local date are exactly the window measured from its waking, waking is on a whole second, and days come in order |
| Picks.Pick | internal/pick/pick.go:45-102 | the filtering, the exclusion, the running total and the draw, as loops, choose what the specification of a draw chooses |
| Picks.DrawSlot | internal/pick/pick.go:92-101 | subtracting weights in turn finds the slot the point falls in when they are laid end to end |
| Picks.PoolMembers | internal/pick/pick.go:50-68 | exactly who is drawn from: everyone not silenced, less the excluded one unless it is all there is |
| Picks.PoolCounts | internal/pick/pick.go:50-68 | each of them is in the pool as often as it was offered, so nobody's chance is doubled |
| Picks.AnswersWhenAnythingCan | internal/pick/pick.go:45-71 | a draw answers if and only if somebody has positive priority, and only with such a one |
| Picks.RepeatsOnlyWhenAlone | internal/pick/pick.go:56-68 | the excluded reminder is the answer if and only if nothing else had positive priority |
| Picks.WeightExactly | internal/pick/pick.go:117-141 | a weight times the reminder's interval, a day if it states none, is its priority times the wait, from none up to four intervals and never past them; one never nudged has all four |
| Picks.WeightBounds | internal/pick/pick.go:117-141 | a weight lies between none and four times the priority, is none exactly for the silenced and the just nudged, and is at least the priority once one interval has been waited |
| Picks.DrawIsFaithful | internal/pick/pick.go:91-101 | the points below the total that select a slot are exactly an interval as long as its weight |
| Picks.PickIsFaithful | internal/pick/pick.go:45-102 | every reminder of the pool is selected by exactly the stretch of draws its weight gives it, nothing weightless is ever selected, and the draw never falls off the end |
| Picks.WeightlessDrawIsUniform | internal/pick/pick.go:80-89 | with nothing to weigh each member of the pool answers to its own remainder |
| Picks.NoStarvation | internal/pick/pick.go:117-141 | a reminder in the pool that has waited one of its intervals has at least a quarter of its priority's share, however long the others have been ignored |
| Fairness.StatedFloorIsNotStarved | internal/store/candidates.go:51-61 | the SQL filter gives every reminder with a stated floor that share in every scheduled draw it is offered to |
| Fairness.WeightlessExactlyWhen | internal/pick/pick.go:80-89 | a draw has nothing to weigh if and only if everything in its pool was nudged at this instant or later |
| Fairness.ScheduledWeightlessExactlyWhen | internal/pick/pick.go:80-89 | a scheduled draw has nothing to weigh if and only if nothing in its pool states a floor and all of it was stamped at the instant of the draw |
| Fairness.FloorsStayFloors | internal/store/reminders.go:202-206 | no floor is below zero in any state of any run that begins so |
| Fairness.ScheduledDrawCanBeWeightless | internal/pick/pick.go:80-89 | a run in which that happens: a nudge decided on, a press, and the claim at the same instant |
| Tables.CandidatesAreOffered | internal/store/candidates.go:51-84 | the rows read are exactly the person's own, not ended, of positive priority and, when floors count, past theirs in whole seconds, each with its own id, priority, floor and last time |
| Tables.AcceptedAreCounted | internal/nudge/nudge.go:251-275 | devices that answered that they took it count, and those that are gone or failed do not |
| Reads.OfferedOnce | internal/store/candidates.go:69-83 | each row that may be offered is offered once |
| Reads.LastSentIsTheMaximum | internal/store/nudges.go:74-81 | the last send is a time in the account's own log and none there is later; there is none exactly when that log is empty |
| Reads.LatestIsTheLast | internal/store/nudges.go:88-100 | the row the exclusion comes from is the account's own, with none sent later and none of the same second under an id that sorts after |
| Decisions.DueAsleepIsDropped | internal/nudge/nudge.go:126-137 | a row whose moment has come while the person is asleep is gone after the pass, and nothing else has changed |
| Decisions.DueAwakeIsDelivered | internal/nudge/nudge.go:126-139 | and when they are awake it is gone and one delivery is made in which floors count |
| Decisions.WaitingIsLeftAlone | internal/nudge/nudge.go:122-125 | a pass before its moment changes nothing at all |
| Decisions.IntervalExactly | internal/rhythm/rhythm.go:72-79 | the interval is the waking minutes shared among the budget to within a nanosecond a nudge, or five minutes if that is more, and none for no budget; and the delay's bound is a tenth of it |
| Decisions.DecidesExactlyWhen | internal/rhythm/rhythm.go:92-137 | where no row waits a pass writes one if and only if there is a budget, the person is awake and an interval has gone by since the last send, or half of one since waking when that was after it |
| Decisions.OutcomeExactlyWhen | internal/nudge/nudge.go:166-228 | which of its three outcomes a delivery has, by the rows that may be offered and the devices that accept; and that only a sent one changes anything |
| Decisions.SentIsRecorded | internal/store/nudges.go:52-68 | what a sent delivery adds to the log and which one stamp it sets |
| Decisions.PassIsARun | internal/nudge/nudge.go:87-100 | a pass over people is a run with one step for each, in order, at the one instant |
| Decisions.DroppedIsNeverSent | internal/nudge/nudge.go:132-137 | over any run, what is sent after a pass that found the person asleep, and anything waiting due, was decided after it |
| Decisions.BudgetOfNoneSendsNothing | internal/rhythm/rhythm.go:92-95 | over any run with a budget of none, once nothing waits nothing ever waits or is sent by schedule |
| Decisions.EndedStaysQuiet | internal/store/candidates.go:47-56 | over any run, a reminder its owner has ended is not raised, by schedule or by hand, until it is revived or a new one takes its id |
| Decisions.OnlyOnesOwn | internal/store/candidates.go:52-56 | nobody is ever sent a reminder that is not their own, or is ended, or is silenced |
| Scheduling.Store.ReadRhythm | internal/store/rhythm.go:76-97 | a missing row reads as the defaults |
| Scheduling.Store.WriteRhythm | internal/store/rhythm.go:100-136 | a rhythm is stored if and only if its timezone is known, its hours are a window inside one day and its budget is allowed; otherwise nothing changes |
| Scheduling.Store.ScheduledNudge | internal/store/pending.go:13-24 | the waiting moment, in whole seconds, or none |
| Scheduling.Store.ScheduleNudge | internal/store/pending.go:27-36 | one row an account, replaced, rounded down, and nothing else |
| Scheduling.Store.ClaimScheduledNudge | internal/store/pending.go:43-51 | the caller gets the row if and only if it was there and due, and then it is gone; otherwise nothing changes |
| Scheduling.Store.ClearScheduledNudge | internal/store/pending.go:55-61 | the account's row is gone and nobody else's |
| Scheduling.Store.LastNudgeAt | internal/store/nudges.go:74-81 | the latest time in the account's log |
| Scheduling.Store.LastNudgedReminder | internal/store/nudges.go:88-100 | what the account's last row carried, in order of time and then of id |
| Scheduling.Store.ReadCandidates | internal/store/candidates.go:51-84 | the rows offered, in the table's order |
| Scheduling.Store.StampNudged | internal/store/reminders.go:222-228 | every row under the id is stamped, and no other |
| Scheduling.Store.RecordNudge | internal/store/nudges.go:52-68 | log then stamp, with each way it can be cut short and the refusal of an id already there |
| Scheduling.Store.CreateReminder | internal/store/reminders.go:64-82 | a row is added with priority 50 and no floor, or the key is taken and nothing changes |
| Scheduling.Store.SetMinInterval | internal/store/reminders.go:202-217 | the floor of the person's own reminder is set in whole seconds; one below zero, or a row not theirs, is refused and changes nothing |
| Scheduling.Store.EndReminder | internal/store/reminders.go:155-170 | the person's own live reminder is ended now, one already ended keeps its date without an error, and one not there is refused |
| Scheduling.Store.ReviveReminder | internal/store/reminders.go:172-182 | the person's own reminder is live again, and one not there is refused |
| Scheduling.Store.DeleteReminder | internal/store/reminders.go:186-198 | the person's own row is gone and no other, and one not there is refused |
| Scheduling.FanOut | internal/nudge/nudge.go:235-276 | the number of devices that accepted, and of no others |
| Scheduling.Scheduler.Deliver | internal/nudge/nudge.go:166-228 | the whole new state and outcome of a delivery on each of its paths: nothing to send, no device, nobody took it, sent |
| Scheduling.Scheduler.NudgeNow | internal/nudge/nudge.go:158-160 | the same delivery without floors, its outcome and how many devices took it, leaving the waiting row alone |
| Scheduling.Scheduler.Consider | internal/nudge/nudge.go:112-150 | the decision for one person: leave waiting, claim and send, claim and drop, schedule, or nothing, with the whole state after each |
| Scheduling.Scheduler.Pass | internal/nudge/nudge.go:87-100 | everybody is considered once, in turn, at one and the same instant |
| Scheduling.Scheduler.PatchRhythm | internal/api/rhythm.go:69-85 | a rhythm that is saved drops what was decided under the old one, unless the drop fails, as the runs' change of rhythm does; one that is refused changes nothing |
| Runs.ScheduledSend | internal/nudge/nudge.go:122-140 | a scheduled send uses up a waiting row whose moment has come, while the person is awake, and logs one row |
| Runs.PendingStep | internal/nudge/nudge.go:142-149 | rows start waiting only by a pass deciding so, and no step moves one that waits |
| Runs.PendingOrigin | internal/nudge/nudge.go:112-150 | a waiting row goes back to one decision, and has stood unmoved since |
| Runs.SendIsRemembered | internal/store/nudges.go:74-81 | from a send on, the last send on record is never earlier, through anything but the loss of derived.db |
| Runs.RhythmsStayValid | internal/store/rhythm.go:100-122 | in every state of every run that starts with a valid rhythm the rhythm is valid |
| Spacing.NudgesAreSpaced | internal/rhythm/rhythm.go:126-137 | any two scheduled nudges under one rhythm are an interval apart, or half of one across a night, in whole seconds, in any zone and through presses and failed sends |
| Spacing.OnlyWhileAwake | internal/nudge/nudge.go:122-138 | a scheduled nudge is sent only by a pass whose reading of the clock finds the person awake and the moment come |
| Bedtime.AwakeExactlyWhen | internal/nudge/nudge.go:87-167 | under a fixed offset, what a delivery does before the next waking finds the person awake if and only if less time went by since the pass read the clock than was left until bedtime |
| Bedtime.SentAfterBedtime | internal/nudge/nudge.go:132-167 | a run in which a nudge is claimed a second before bedtime and sent at bedtime |
| Daily.NextSendWaits | internal/rhythm/rhythm.go:126-137 | when the n-th send of a waking day can come at the earliest, with every rounding counted |
| Daily.NoRoomForMore | internal/rhythm/rhythm.go:72-79 | past the budget there is no room left in the window, or past one more when a row was carried in and the interval is not whole seconds |
| Daily.DayHoldsTheBudget | internal/nudge/nudge.go:112-150 | in every run, every ordinary day holds at most the budget, or one more when a row was carried in and the interval is not whole seconds or there is no budget at all |
| Daily.AtMostOneOver | internal/nudge/nudge.go:112-150 | and so never more than one over, wherever in a run the day lies |
| Daily.ApartDayHoldsTheBudget | internal/nudge/nudge.go:58-78 | with an account's passes a second apart or more, every ordinary day of every run holds at most the budget, whatever was carried into it, or with no budget the one carried in |
| Tight.OneOverIsReached | internal/rhythm/rhythm.go:72-137 | under every valid rhythm with a window, a fixed offset and an interval not whole seconds, and for any day, a run from nothing waiting, whose first pass decides on the day before, and in which the day holds one over its budget |
| AllDay.AnyDayHoldsTheBudget | internal/rhythm/rhythm.go:72-128 | without a window, in every run and any zone, any day and night from any second on hold at most the budget, or one more when it does not divide a day into whole seconds; with no budget, at most the row that was waiting |
| Response.FiringSends | internal/nudge/nudge.go:128-139 | a waiting nudge whose moment has come is sent whenever something is offered and somebody accepts |
| Response.NextNudgeArrives | internal/nudge/nudge.go:112-150 | the next nudge of somebody attended, with or without a row waiting already, is sent within an interval, a tenth of one and two ticks of the start of the wait |
| Response.DayHoldsAtLeast | internal/rhythm/rhythm.go:113-137 | a day attended past the n-th deadline holds at least n, with or without a row carried in |
| Response.DefaultDayHoldsThree | internal/rhythm/rhythm.go:122-125 | a day under the default rhythm attended until 21:33 holds exactly the three asked for, also with a row carried in whose moment is by 11:41 |
| Floors.FloorIsObeyed | internal/store/candidates.go:58-61 | a scheduled delivery comes no sooner than the reminder's floor after any completed delivery of it, over any run, with derived.db lost at any points |
| Floors.StampIsRemembered | internal/store/reminders.go:222-228 | a completed delivery's stamp is never lost or set back while the reminder exists |
| Floors.IdsStayUnique | internal/store/reminders.go:186-198 | one row an id in every state of every run |
| Floors.NoStampWithoutLog | internal/store/nudges.go:59-66 | however far recording gets, a stamp has its log row |
| Floors.StampedExactlyWhen | internal/store/nudges.go:52-68 | a nudge that is logged is remembered by its reminder if and only if both writes went through, or the reminder bore the stamp of that second or a later one already |
| Floors.OfferedAfterLogOnly | internal/store/nudges.go:47-67 | after a nudge logged and not stamped, and until one is completed, a scheduled draw offers the live reminder if and only if its floor has passed since the stamp it bore before, over any run |
| Floors.LogWithoutStampRepeats | internal/store/nudges.go:47-67 | a run in which recording is cut short and a daily reminder comes twice in ten minutes |
| NoRepeats.NewRowIsLatest | internal/store/nudges.go:88-100 | what is logged last sorts last, by time and id together, within one second too |
| NoRepeats.NoRepeatWhileThereIsAnother | internal/nudge/nudge.go:166-228 | two consecutive nudges of an account carry one reminder if and only if the second draw was offered no other, over any run that keeps its log |
| NoRepeats.LoneReminderComesBack | internal/pick/pick.go:63-68 | a run in which it does repeat: a reminder that is all there is comes twice running |
| NoRepeats.NothingSentNothingRemembered | internal/nudge/nudge.go:184-220 | a delivery nobody took changes no log, no stamp and no later draw |
| Claims.RowsAreConserved | internal/store/pending.go:27-61 | under every interleaving of statements each scheduled row has exactly one fate: claimed, cleared, overwritten or standing |
| Claims.CountsAddUp | internal/store/pending.go:27-61 | and the counts of those add up to the rows scheduled, of which deliveries are never more |
| Claims.NothingIsSentTwice | internal/store/pending.go:38-51 | no two passes send the same scheduled nudge, however they overlap |
| Claims.OverwritesExactlyWhen | internal/nudge/nudge.go:118-149 | under every interleaving, a pass that schedules overwrites a row if and only if since it read that nothing was waiting another pass has scheduled one that nobody claimed or cleared |
| Claims.SerialPassesOverwriteNothing | internal/nudge/nudge.go:106-149 | with passes one after another nothing is overwritten, and a row that stands while a pass is about to claim passes the claim's test |
| Claims.ClaimSucceedsExactlyWhen | internal/nudge/nudge.go:122-131 | with passes one after another, a claim gets the row its pass read as due if and only if no rhythm change cleared it in between |
| Claims.StandingMomentStays | internal/nudge/nudge.go:106-109 | and no step moves a moment that stands |
| Claims.OverlapOverwrites | internal/store/pending.go:27-36 | overlapping passes can lose a moment |
| Statements.WholePassIsConsider | internal/nudge/nudge.go:112-150 | the statements of one pass in a row leave the pending row as the whole pass does, overwrite nothing, and deliver that row exactly when it is due and the person awake |
| Orders.BelowMeans | internal/store/nudges.go:91-91 | one text sorts before another if and only if they agree up to where it ends or has the smaller character |
| Numerals.OrderIsNumeric | internal/ids/ids.go:46-50 | big-endian numerals of one width sort as their values do |
| Ids.NewAt | internal/ids/ids.go:44-55 | the bytes filled in place make the id of that instant and those random bytes |
| Ids.FillIn | internal/ids/ids.go:45-53 | six bytes of milliseconds, then ten random ones, all sixteen written |
| Ids.BigEndian64 | internal/ids/ids.go:48-49 | the eight base-256 digits of the value modulo 2^64, most significant first |
| Ids.DecodeEncode | internal/ids/ids.go:34-36 | decoding an encoding, by section 6 of RFC 4648 over this alphabet and without padding, gives back the bytes, whatever their number |
| Ids.MintedIsValid | internal/ids/ids.go:44-68 | every minted id is valid for its prefix, at any instant |
| Ids.ValidMeans | internal/ids/ids.go:62-68 | an id is valid if and only if it is prefix, then 26 characters of the alphabet or line breaks |
| Ids.IdsSortByTime | internal/ids/ids.go:34-55 | of two ids under one prefix the one minted in an earlier millisecond sorts first, whatever its random bytes |
| Ids.IdCarries | internal/ids/ids.go:44-55 | an id reads back as its millisecond and its own ten random bytes |
| Ids.IdsDifferExactlyWhen | internal/ids/ids.go:44-55 | two ids under one prefix are the same if and only if their milliseconds and their random bytes are |
| Ids.KnownEncodings | internal/ids/ids.go:34-36 | the test vectors of section 10 of RFC 4648, in this alphabet |
| Limiting.Limiter.Allow | internal/api/auth.go:175-192 | the answer and the whole map after a call, for a key new, expired or counting, with the sweep |
| Limiting.AdmittedExactlyWhen | internal/api/auth.go:175-192 | in any history, a call is admitted if and only if its key has no window, or its window, opened by an earlier call, is over, or holds no more than the limit with this one |
| Limiting.OnlySweepsForget | internal/api/auth.go:181-187 | a key that has called has a window unless the map was thrown away since |
| Limiting.MapStaysSmall | internal/api/auth.go:182-187 | at most 10,001 keys in any history |
| Limiting.FewerThanTwiceTheLimit | internal/api/auth.go:154-192 | in any history without a sweep, every closed interval one period long admits fewer than twice the limit |
| Limiting.OneShortOfTwiceIsReached | internal/api/auth.go:154-158 | for every limit and every positive period, some history admits exactly one fewer than twice |
| Sessions.SessionStore.CreateSession | internal/store/sessions.go:46-56 | a new row good for a lifetime, or a refusal of a key already there |
| Sessions.SessionStore.ReadSession | internal/store/sessions.go:68-104 | the answer and the table after: not signed in, slid, or as it was, and an expired row deleted |
| Sessions.SessionStore.Sweep | internal/store/sessions.go:125-132 | key by key, a session is kept, and kept as it was, if and only if it expires later than now; the number returned is how many went |
| Sessions.SessionStore.DeleteSession | internal/store/sessions.go:107-112 | the one session is gone |
| Sessions.SessionStore.DeleteSessionsFor | internal/store/sessions.go:116-121 | key by key, a session is kept, and kept as it was, if and only if it is somebody else's |
| Sessions.SignedOutStaysOut | internal/store/sessions.go:114-121 | once an account's sessions are ended, no request in any run is signed in as it until a session is created for it |
| Sessions.RowsSlide | internal/store/sessions.go:88-103 | in every state a row expires a lifetime after it was last seen |
| Sessions.WithinAnHourOfIdeal | internal/store/sessions.go:58-104 | after a use, a session left alone resolves at every moment up to a lifetime less an hour later and at none from a lifetime on |
| Sessions.MovesAreAnHourApart | internal/store/sessions.go:92-102 | two refreshes of one session are at least an hour apart in the whole seconds the store keeps, so less than a second short of it by the clock at worst |
| Sessions.SweepIsInvisible | internal/store/sessions.go:125-132 | sweeping, at any moments at all, changes no answer anybody gets, with every session created under a key of its own |
| Codes.NewCode | internal/store/recovery.go:208-216 | a code is as long as it should be and over the alphabet, each character by its own random byte |
| Codes.EveryCodeIsMinted | internal/store/recovery.go:208-216 | every text over the alphabet is what some random bytes reduce to |
| Codes.NormaliseCode | internal/store/recovery.go:220-234 | the loop reads a text as the concatenation of what its characters stand for |
| Codes.TrimExactly | internal/store/recovery.go:222-222 | trimming takes all the white space off both ends and nothing else |
| Codes.NormalisingForgivesExactly | internal/store/recovery.go:218-234 | a trimmed text normalises to a code if and only if it is a forgiving typing of that code |
| Codes.EveryTypingComesBack | internal/store/recovery.go:218-234 | every forgiving typing normalises back to its code, trimming included |
| Codes.IdempotentExactlyWhen | internal/store/recovery.go:220-234 | normalising twice is normalising once if and only if, of the trimmed text, neither the first nor the last character that is not a space or hyphen is white space |
| Codes.NormalisingIsIdempotent | internal/store/recovery.go:220-234 | and so on any text whose only white space is spaces |
| Codes.NotIdempotentOnTabs | internal/store/recovery.go:220-234 | and is not on a text with a tab behind a hyphen |
| Codes.AlphabetIsSymbols | internal/store/recovery.go:25-27 | the alphabet of codes is the digits and the capitals but I, L, O and U, and is the one ids use |
| Recovery.EqualHash | internal/store/recovery.go:238-247 | accumulating differences finds exactly whether two hashes are equal |
| Recovery.RecoveryStore.StartRecovery | internal/store/recovery.go:74-100 | a fresh attempt replaces any in flight and its code is returned, or the address is refused and nothing changes |
| Recovery.RecoveryStore.DropRecovery | internal/store/recovery.go:106-112 | the attempt is gone and what is proved is untouched |
| Recovery.RecoveryStore.ConfirmRecovery | internal/store/recovery.go:119-195 | accepted if and only if live and right; the whole state after an acceptance, a wrong guess, a last guess and a refusal |
| Recovery.RecoveryStore.ForgetRecovery | internal/store/recovery.go:200-206 | the two deletes, or the first of them alone |
| Recovery.AttemptTracesBack | internal/store/recovery.go:86-95 | every attempt in flight goes back to one start by that account, not replaced or ended since, with its guesses counted and under five |
| Recovery.FiveGuessesPerCode | internal/store/recovery.go:144-164 | no issued code is ever compared with more than five guesses |
| Recovery.AcceptedExactlyWhen | internal/store/recovery.go:119-195 | a guess is accepted if and only if it comes in time and is a forgiving typing of the very code in flight, never of a superseded one |
| Recovery.NothingToAccept | internal/store/recovery.go:134-139 | with no attempt in flight nothing is accepted |
| Recovery.ProvedTracesBack | internal/store/recovery.go:171-195 | every proved address goes back to a start by that account for that address, confirmed with that start's code in time, with nothing in between that ends it |
| Recovery.ConfirmedExactly | internal/store/recovery.go:119-195 | account by account, what a confirmation changes: its own attempt and address, and of the others only an address that is the same but for its case |
| Recovery.AddressIsHeld | internal/store/recovery.go:171-186 | over any run, a proved address is held until its account proves another or forgets it, or somebody else proves the same |
| Recovery.ProvedIsLeftAlone | internal/store/recovery.go:102-112 | starting, failing and dropping never change what is proved |
| Recovery.AddressesStayDistinct | internal/store/recovery.go:171-186 | in every state no two accounts hold one address, whatever its case |
| Recovery.ForgettingEndsAttempt | internal/store/recovery.go:197-206 | in any run, with any attempt in flight: after forgetting, a confirmation is accepted, and its address proved, if and only if the second delete did not happen and the right code is typed in time |
| Recovery.HalfForgottenComesBack | internal/store/recovery.go:197-206 | for every code there can be, a run in which an address forgotten by halves is proved |
| Migrations.OrderDeclaredDoesNotMatter | internal/store/store.go:180-185 | builds that declare the same distinct names, in whatever orders, sort them into the same list |
| Migrations.Database.Migrate | internal/store/store.go:187-218 | where migrating ends, however many steps commit before it is cut short, and that a newer schema is refused untouched |
| Migrations.AppliedExactlyWhen | internal/store/store.go:187-218 | over any history of any builds, with crashes and downgrades, what is applied is exactly the beginning of a list if and only if every launch committed, at the positions it committed, what that list has there |
| Migrations.AppliedIsAPrefix | internal/store/store.go:175-219 | so among builds that extend each other it is exactly the first `version` steps of any build's list that is long enough |
| Migrations.UpgradesFitExactlyWhen | internal/store/store.go:180-199 | over a history of uninterrupted upgrades every start leaves exactly its own list applied if and only if each list extends the one before |
| Migrations.AddedStepExactlyWhen | internal/store/store.go:180-185 | a step added to a list whose other steps are all applied is applied in its place if and only if it sorts last; anywhere else it is never applied and the last step runs twice |
| Migrations.VersionsOnlyGrow | internal/store/store.go:194-217 | over any history of any builds, what is applied is only ever added to and no version goes back |
| Migrations.UninterruptedStartFinishes | internal/store/store.go:194-218 | a start that is not cut short appends all its list holds from the version on, or leaves a newer schema as it was; and its list is then what is applied if and only if its beginning was |
| Backups.Build | internal/backup/backup.go:71-113 | every file of the snapshot goes in, in order, and the digest is of main.db |
| Backups.DigestIsOfMain | internal/store/backup.go:35-72 | a snapshot holds main.db, and derived.db only when asked for; and its archive is known by main.db alone |
| Backups.Pusher.RunOnce | internal/backup/pusher.go:95-155 | what is sent and remembered by one pass, and whether it reports success, at each point it can be cut short |
| Backups.ArchivesCarryDerived | internal/config/config.go:113-114 | in every run, every accepted archive carries derived.db if and only if the mode is not main only |
| Backups.RememberedWasAccepted | internal/store/backup.go:95-107 | in every state what is remembered is the digest and time of an archive the agent accepted, across crashes and losses of derived.db |
| Backups.SuccessMeansThereIsACopy | internal/backup/pusher.go:105-151 | whenever a pass succeeds the agent holds main.db as that pass saw it |
| Backups.QuietInstanceSendsOnce | internal/backup/pusher.go:116-133 | once main.db stops changing, the modes without a floor send at most once more |
| Backups.UploadsArePaidFor | internal/backup/pusher.go:95-155 | once main.db stops changing, through any crashes and losses of derived.db, the modes without a floor send at most once for each copy accepted and not recorded and each loss, and once more if its contents were not remembered |
| Backups.UnrecordedCopyIsSentAgain | internal/backup/pusher.go:145-150 | an accepted copy that was never recorded is sent again by every later pass that finds the same main.db, until a copy is recorded, losses of derived.db included |
| Backups.CopiesKeepComing | internal/config/config.go:116-125 | in the mode with a floor, passes that succeed never leave copies further apart than the period and one look |

## Left out

- The text, note, priority edits and creation rules of reminders: no operation of the program changes a priority once a row exists, and text decides nothing here.
- What button was pressed on a nudge (`acted_at`, `action`): nothing in the engine reads it back.
- Devices: which exist, which are counted as failed and which are deleted when gone. The answers of one delivery are an input, in any number.
- Disabling and deleting accounts, and who is listed for a pass: a pass is given the people it considers.
- Read errors of the database: a consideration that cannot read changes nothing and is no step.
- Floating point, the generator and its seeding: the draw's fraction is any real number, and the uniform draw's number any natural one.
- Saturation of the longest durations and the far ends of the calendar: instants are unbounded.
- Real zone data and the days clocks change on: the counts of a day are for ordinary days, everything else for any zone.
- Passes, presses and rhythm changes overlapping inside one consideration: only the pending row is followed statement by statement, in `Claims.dfy`.
- Which timezone names are known: an input to saving a rhythm, because a zone here is not a name.
- Scheduling.Store.SetMinInterval: a floor given in fractions of a second is rounded down exactly, because the rounding of very long ones in floating point is not part of this model.
- Scheduling.Scheduler.PatchRhythm: takes the edited copy whole, because merging the request's optional fields is plumbing.
- Scheduling.FanOut: answers are counted one after another, because the sends share only a counter under a lock.
- Ids.BigEndian64: instants before 1970 wrap as unsigned 64-bit values do, and are sorted only from 1970 on.
- Ids.ValidMeans: one quirk is not modelled, the decoder's treatment of the byte 0xFF as padding, because texts here are ASCII.
- Ids.DecodeEncode: texts of lengths no encoder produces are decoded to as many bytes as fit, which only validity reads.
- Codes.NormaliseCode: upper-casing and trimming are ASCII; other scripts are not part of this model.
- Recovery.RecoveryStore.StartRecovery: whether a text is an address, and what it is once parsed, is an input; sending the mail is not part of this model.
- Recovery.AcceptedExactlyWhen: takes the hash to be injective, as what follows forgetting does.
- Limiting.FewerThanTwiceTheLimit: is about histories in which the map is not thrown away, because a sweep forgets every count.
- Migrations.OrderDeclaredDoesNotMatter: says that the sorted list is unique, because the sorting itself is the library's.
- What a migration step does to the schema, and the second database some steps look at: a step is its name.
- Compressing, sending and naming archives, how a database is snapshotted consistently, and the loop's timer.
- HTTP, cookies, sign-in, invitations, passwords, mail, web push, the command line and the web client.
