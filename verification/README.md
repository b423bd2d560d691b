# Verified model of the Amlogic Wi-Fi driver's bookkeeping

This project models seven parts of the `aml_drv` driver in Dafny and proves what they promise.
Run `dafny verify dfyconfig.toml`.

* **Command manager** (`cmd_*.dfy`). Callers queue commands; the firmware answers each with an
  ACK and, if asked, a confirmation, in either order; a worker thread or the handlers push
  deferred commands; a timeout crashes the manager. `CmdModel` gives the effect of each handler
  on values, `CmdProtocol` a state machine in which every section under the lock and every
  action outside of it is one step, in any order. `CmdOutcomes`, `CmdTheorems`, `CmdSteps`
  and `CmdProgress` state what holds after every run and what each step does. `CmdManager` holds the handlers as the source has them,
  methods on objects on a list, each proved against its value in `CmdModel`.
* **Firmware trace** (`trace_*.dfy`). Records of variable length go from a ring in shared memory
  to a local ring with an end marker, and from there to the reader as text. `TraceRing` refines
  the local ring to a queue of records, `TraceShared` is the walk over the shared ring with its
  resume pointer, `TraceSession` the reader: nothing is lost, repeated or out of order.
* **MU groups** (`mu_*.dfy`). Which station sits in which group is kept twice, with three
  counters, a list of groups by last use and a list of stations to update in the firmware. The
  allocator creates, completes and evicts groups, stations leave, and groups are chosen by
  traffic. The number of groups and of users of a group are parameters.
* **P2P frames** (`p2p_*.dfy`). The channel list inside an attribute inside an element of a
  frame is narrowed in place; formats are those of sections 4.1.1 and 4.1.13 of the Wi-Fi P2P
  Technical Specification.
* **DNS names** (`dns_*.dfy`), section 4.1.4 of RFC 1035; the **configuration file**
  (`cfg_*.dfy`); the **flow table mask** (`rps_table.dfy`). `octets.dfy`, `bits.dfy` and
  `collections.dfy` are shared.

Where loops change things in place in the source, they do so here: classes with fields, arrays
and loops, each method with a specification on values, about which the lemmas are.

What the models take as given: the firmware acknowledges only commands pushed to it, each once;
in the sessions of a trace reader it does not overwrite records that were not copied, nor the one
copied last, and no record starts with 0xffff; the local trace buffer takes the largest record;
firmware and host exclude each other on the shared ring; groups are selected for one access point;
the channel list has at most 200 octets of entries and the first element with the vendor's
identifier is the P2P element.
Kernel functions (`simple_strtoul`, `sscanf`, `memcpy`, list walks) are modelled by what they are
documented to do; kernel code is not part of this model.

## Where the code differs from what it says

* `aml_mu_group_create` and `aml_mu_group_create_one` both decrement the number of new groups
  left (`w2l/aml_drv/aml_mu_group.c:325` and `w2l/aml_drv/aml_mu_group.c:365`), so at most half of
  the groups the comment promises are created in a run: `MuGroups.MuInfo.Work` says exactly which
  pairs of the active stations share groups; `MuGroups.LeftApart` is a run that leaves one of three
  stations apart with two groups at hand.
* `aml_mu_group_sta_del` does not clear the slot of a user left alone in a group, nor puts that
  user on the update list (`w2l/aml_drv/aml_mu_group.c:62-78`). `MuGroups.MuInfo.StaDel` states
  exactly when that matters; with two users a group it always does, as in the run of
  `MuGroups.PairBreaks`.
* The channel list loop compares a position counted from the attribute's header with the length
  of its body (`w2l/aml_drv/aml_p2p.c:73`) and overlooks a last class with at most one channel.
* The search for the channel list runs on past the P2P element (`w2l/aml_drv/aml_p2p.c:145`).
  `P2pFrames.FindList` states exactly when it finds a list that is none, and
  `P2pFrames.ChangeChanList` what is overwritten then; `P2pFrames.RefusalStrays` is such a frame.
* The high octet of the length of the list is shifted by 255 (`w2l/aml_drv/aml_p2p.c:169`), taken
  as 0 here.
* A decoded name ends with a dot if its last label is followed by a pointer to the end
  (`DnsNames.DecodedExactly`); a walk that comes back to a position is followed for ever
  (`DnsNames.EndsUnlessLoops`); labels of 64 to 191 octets are accepted, and a pointer at the last
  octet is read one octet beyond the packet (`DnsNames.SameAsStandard`, `DnsNames.NotStandard`);
  and a name may fill the buffer without an end mark or overrun it (`DnsDecode.NameExactly`,
  `DnsDecode.ErrorExactly`, `DnsDecode.LoopExactly`, with packets).
* A reader of the firmware trace whose last record was overwritten is to go on at the oldest one. It
  does not if the newest record starts where its last one did (`w2l/aml_drv/aml_fw_trace.c:392`),
  nor if another record that starts there has the same first word
  (`w2l/aml_drv/aml_fw_trace.c:397`), and skips records that are still in the ring:
  `TraceShared.Shared.LostBegins` is the exact condition, `TraceShared.StaysBehind` and
  `TraceShared.SkipsOne` are runs.
* `aml_cfg_store_tag` checks the length of a line without its `=`, its line feed and its end mark
  (`w2l/aml_drv/aml_cfg.c:137`): `CfgFile.PastLineExactly`.
* `aml_cfg_store_tag` takes the length of a buffer it has not set
  (`w2l/aml_drv/aml_cfg.c:146`), and the high word of the chip identifier is read from four
  characters without an end mark (`w2l/aml_drv/aml_cfg.c:315`).

## Model

| member | source | states |
|---|---|---|
| CmdTheorems.ThreadedPermits | w2l/aml_drv/aml_cmds.c:89-117 | SDIO and USB, every run that has not crashed: the commands waiting for their ACK are a suffix of the queue, and there is exactly one permit to push (caller, semaphore, worker or command in flight) while it is not empty, none otherwise |
| CmdTheorems.WorkerFinds | w2l/aml_drv/aml_cmds.c:100-116 | the walk of the worker always ends at a command in WAIT_PUSH, the first one not acknowledged, so its test against NULL is never fooled by the list head; commands held outside the lock are still queued |
| CmdTheorems.PcieHeadOnly | w2l/aml_drv/aml_cmds.c:166-219 | PCIe: the head and only the head of a non-empty queue is at the firmware or on its way there, every later command is in WAIT_PUSH, whichever of ACK and confirmation comes first |
| CmdTheorems.PcieReleases | w2l/aml_drv/aml_cmds.c:319-343 | PCIe: any step that completes a command pushes its successor in the same step |
| CmdTheorems.PcieTokens | w2l/aml_drv/aml_cmds.c:197-204 | PCIe: the i-th queued command has token next_tkn - queue_sz + i modulo 2^32, queued tokens are distinct across wrap-around, and the ACK lookup hits the head before any WAIT_PUSH command |
| CmdTheorems.PushedInOrder | w2l/aml_drv/aml_cmds.c:210-219 | every bus: the pushed commands are the first ones accepted, each once and in token order, and a command that left the queue was pushed |
| CmdTheorems.BlockingOutcome | w2l/aml_drv/aml_cmds.c:52-76 | a settled blocking command has result 0 if and only if its ACK and, if it asked for a confirmation, a message with the identifier it asked for were processed, else -ETIMEDOUT after a crash or -EINTR after draining, crashed before or not, and is completed at most once |
| CmdTheorems.NothingLost | w2l/aml_drv/aml_cmds.c:165-204 | queue_sz is the list length and within the maximum; every accepted command is either queued or settled; draining, of a crashed manager too, leaves nothing |
| CmdTheorems.SettledForGood | w2l/aml_drv/aml_cmds.c:52-76 | a settled command never changes again |
| CmdTheorems.CrashIsFinal | w2l/aml_drv/aml_cmds.c:143-163 | a crashed manager accepts nothing and never comes up again: it stays crashed until it is drained, and then nothing is queued and every accepted command is settled |
| CmdSteps.SubmitExactly | w2l/aml_drv/aml_cmds.c:143-208 | in every reachable state a new command is refused with -EPIPE if and only if the manager crashed, with -ENOMEM if and only if it did not and the queue holds the maximum, and else becomes the last of the queue, one more accepted, waiting for its ACK and the confirmation it asks for |
| CmdSteps.DeferredExactly | w2l/aml_drv/aml_cmds.c:178-193 | an accepted command waits for its push if and only if, on PCIe, any command is queued, on SDIO and USB, any that waits for its ACK |
| CmdSteps.FillsUp | w2l/aml_drv/aml_cmds.c:165-204 | on every bus the queue can come to hold any number of commands up to its maximum |
| CmdSteps.TwoQueued | w2l/aml_drv/aml_cmds.c:165-204 | two commands queued one after the other, on each bus |
| CmdSteps.CallerExactly | w2l/aml_drv/aml_cmds.c:210-219 | a command that was not deferred is pushed by its caller, but on SDIO and USB, if it asks for the thread, put in WAIT_PUSH and signalled to the worker |
| CmdSteps.AckExactly | w2l/aml_drv/aml_cmds.c:295-343 | an ACK is taken by its own command, settled unless it waits for a confirmation; on SDIO and USB the next one is signalled, on PCIe it is pushed once the first is settled |
| CmdSteps.MessageExactly | w2l/aml_drv/aml_cmds.c:372-414 | a message is taken by the first queued command that waits for a message with its identifier and accepts it, which alone stops waiting and is settled if it had its ACK; without such a command nothing changes |
| CmdSteps.OwnMessageOnly | w2l/aml_drv/aml_cmds.c:374-384 | a message with another identifier leaves a command waiting for its confirmation |
| CmdSteps.OwnAnswers | w2l/aml_drv/aml_cmds.c:295-414 | a blocking command has result 0 only if the run holds its ACK and, if it asked for a confirmation, a message with the identifier it asked for that it accepted |
| CmdSteps.StrayMessage | w2l/aml_drv/aml_cmds.c:374-384 | a concrete command: a message with another identifier, or one it turns down, changes nothing, its own completes it with result 0 |
| CmdSteps.TimeoutExactly | w2l/aml_drv/aml_cmds.c:240-268 | the caller of a queued blocking command can time out at any moment: the manager crashes and the command is settled with -ETIMEDOUT, its caller not woken |
| CmdSteps.DrainExactly | w2l/aml_drv/aml_cmds.c:445-465 | a drain is possible at any moment and settles every queued command as it is, blocking ones signalled once |
| CmdProtocol.StepKeeps | w2l/aml_drv/aml_cmds.c:131-343 | every step of callers, firmware, worker and timers keeps the invariant of its bus |
| CmdProtocol.RunKeeps | w2l/aml_drv/aml_cmds.c:131-343 | so does every run |
| CmdProtocol.AckLookup | w2l/aml_drv/aml_cmds.c:304-318 | the lookup of an ACK by token finds a command no later than the acknowledged one and releases the first WAIT_PUSH command after it, even if tokens repeat |
| CmdOutcomes.RunLedger | w2l/aml_drv/aml_cmds.c:131-465 | over every run, crashed ones included, wait flags, results, completions and the books of open and settled commands agree |
| CmdProgress.NeverStuck | w2l/aml_drv/aml_cmds.c:89-117 | while the manager is up and a command is queued, some step that serves it is possible |
| CmdProgress.ServingNearer | w2l/aml_drv/aml_cmds.c:131-423 | each such step brings the queue nearer to empty |
| CmdProgress.ServingEnds | w2l/aml_drv/aml_cmds.c:131-423 | no run of such steps alone is longer than that distance at its start |
| CmdProgress.Empties | w2l/aml_drv/aml_cmds.c:131-423 | from every reachable state that is up, serving steps alone empty the queue and give every blocking command result 0 |
| CmdManager.CmdMgr.Queue | w2l/aml_drv/aml_cmds.c:143-208 | the locked part of queueing: refused with -EPIPE exactly when crashed, with -ENOMEM exactly when the list is not empty and full, and unchanged; else appended, stamped and deferred as the last command demands |
| CmdManager.CmdMgr.HandOver | w2l/aml_drv/aml_cmds.c:210-219 | the push, or the signal to the worker, after unlocking |
| CmdManager.CmdMgr.Complete | w2l/aml_drv/aml_cmds.c:52-76 | unlinks exactly the given command, closes it and leaves the others alone |
| CmdManager.CmdMgr.AckWalk | w2l/aml_drv/aml_cmds.c:304-318 | the walk returns the command the token hits and the next one to release, or null |
| CmdManager.CmdMgr.LlInd | w2l/aml_drv/aml_cmds.c:295-343 | handling an ACK in place takes the manager from any value to the one specified for the ACK |
| CmdManager.CmdMgr.MsgInd | w2l/aml_drv/aml_cmds.c:365-414 | handling a firmware message in place, likewise; found tells whether a listed command waited for a message with that identifier and took it, and commands that asked for another one keep waiting |
| CmdManager.CmdMgr.FindPushable | w2l/aml_drv/aml_cmds.c:100-107 | the first command in WAIT_PUSH, null standing for the list head |
| CmdManager.CmdMgr.PushFound | w2l/aml_drv/aml_cmds.c:109-116 | the worker clears WAIT_PUSH of the command found and pushes it |
| CmdManager.CmdMgr.TimeOut | w2l/aml_drv/aml_cmds.c:260-268 | a timeout crashes the manager and removes the command with -ETIMEDOUT unless it was done already |
| CmdManager.CmdMgr.Drain | w2l/aml_drv/aml_cmds.c:445-465 | draining unlinks every command, signals each blocking one once and leaves size 0 |
| TraceText.TextLength | w2l/aml_drv/aml_fw_trace.c:281-327 | the text of a record has exactly the predicted length and fits 1824 octets with its end mark |
| TraceText.TextFaithful | w2l/aml_drv/aml_fw_trace.c:297-327 | the text column by column: a number whose upper half is the third word and whose lower half the fourth, one made of the low octet of the first word and the second, and every parameter, padded with blanks, with the marks before them and the line feed |
| TraceText.ToStr | w2l/aml_drv/aml_fw_trace.c:297-327 | the conversion loop writes that text and returns where the next record starts |
| TraceText.Printed | w2l/aml_drv/aml_fw_trace.c:32-34 | a concrete record as it is printed |
| TraceRing.DecodeRing | w2l/aml_drv/aml_fw_trace.c:471-524 | the queue of unread records is what the words decode to from the read position, the end marker skipped |
| TraceRing.LocalBuf.DecodesToContents | w2l/aml_drv/aml_fw_trace.c:420-443 | in every valid state of the local buffer, over any interleaving of copies and reads |
| TraceRing.LocalBuf.CounterFits | w2l/aml_drv/aml_fw_trace.c:350-358 | the 16-bit entry counter cannot wrap |
| TraceRing.LocalBuf.ResetLocal | w2l/aml_drv/aml_fw_trace.c:226-236 | a local buffer reset holds no records and has read none |
| TraceRing.LocalBuf.CopyOne | w2l/aml_drv/aml_fw_trace.c:409-443 | a record is appended to the queue if and only if there is room for it; else nothing changes; free_space stays right, the tail skipped by a marker included |
| TraceRing.LocalBuf.RoomExactly | w2l/aml_drv/aml_fw_trace.c:420-443 | there is room exactly if some stretch of that many words holds no unread record and is not given up |
| TraceRing.LocalBuf.CopyEntry | w2l/aml_drv/aml_fw_trace.c:339-359 | writes exactly the words of the record at the write position and wraps |
| TraceRing.LocalBuf.CopyRound | w2l/aml_drv/aml_fw_trace.c:427-436 | leaves a marker, goes round and appends |
| TraceRing.LocalBuf.ReadOne | w2l/aml_drv/aml_fw_trace.c:497-516 | emits the text of the oldest record, removes it and gives its words and a skipped tail back |
| TraceRing.LocalBuf.ReadLocal | w2l/aml_drv/aml_fw_trace.c:471-527 | emits the longest run of whole records that fits the user size, in order, and removes exactly those; an emptied buffer is reset |
| TraceShared.Copy | w2l/aml_drv/aml_fw_trace.c:372-456 | whatever the reader took before, it copies the records from the one at which it goes on, each once and in order, until the last one or the first without room, and terminates; if the place it read last is that of the newest record it copies none |
| TraceShared.FirstPtr | w2l/aml_drv/aml_fw_trace.c:396-402 | the walk begins after the place of the record read last if its first word is found there, whichever record it belongs to, and at the oldest record if not |
| TraceShared.Shared.NextInStep | w2l/aml_drv/aml_fw_trace.c:392-402 | a reader whose last record is still in place, or that took none of the ring, goes on at the next record |
| TraceShared.Shared.LostBegins | w2l/aml_drv/aml_fw_trace.c:392-402 | a reader whose last record is in the ring no more goes on at the oldest one if and only if the newest one does not lie at the place of its last one and the first word there is another, or what would follow that place is the oldest record |
| TraceShared.Shared.LostAmong | w2l/aml_drv/aml_fw_trace.c:392-402 | if one of the records lies at that place, it goes on at the oldest one if and only if that record is not the newest and has another first word; else it skips the records up to it |
| TraceShared.LostReaders | w2l/aml_drv/aml_fw_trace.c:392-402 | concrete rings: the newest record at that place, another record there with the same first word, and a dropped record whose words are still there |
| TraceShared.StaysBehind | w2l/aml_drv/aml_fw_trace.c:372-456 | a run on the first of these: the reader copies none of the two records in the ring |
| TraceShared.SkipsOne | w2l/aml_drv/aml_fw_trace.c:372-456 | a run on the second: of the two records in the ring it copies the newer one only |
| TraceShared.Walk | w2l/aml_drv/aml_fw_trace.c:404-450 | the walk over the shared ring, its wrap-around and its end |
| TraceSession.Session.CopyNew | w2l/aml_drv/aml_fw_trace.c:372-456 | copying keeps the session lossless: text handed out followed by the records held is a contiguous part of what the firmware logged |
| TraceSession.Session.Emit | w2l/aml_drv/aml_fw_trace.c:471-527 | reading keeps it lossless, and hands out text until the next record does not fit or none is held |
| TraceSession.Session.FirmwareWrites | w2l/aml_drv/aml_fw_trace.c:372-402 | so does the firmware, if it spares the record read last and those not copied |
| TraceSession.Session.Reset | w2l/aml_drv/aml_fw_trace.c:668-690 | a reset of the ring once everything was copied keeps the session lossless |
| TraceSession.Session.Read | w2l/aml_drv/aml_fw_trace.c:547-593 | the outer read loop terminates, stays within the size and keeps the session lossless; afterwards all that was traced was handed out, or the text of the next record is longer than what is left of the size; -1 stands for -EAGAIN, when all was handed out before |
| TraceSession.FirstLine | w2l/aml_drv/aml_fw_trace.c:547-593 | a run: a ring with one record, whose line of 28 characters the reader gets |
| MuGroups.MuInfo.RemoveUsers | w2l/aml_drv/aml_mu_group.c:172-194 | empties a group; bitmaps, counters and lists stay consistent, other groups untouched, everyone evicted is due for an update |
| MuGroups.MuInfo.AddUsers | w2l/aml_drv/aml_mu_group.c:211-243 | adds exactly the given stations; consistency kept |
| MuGroups.MuInfo.NextSeat | w2l/aml_drv/aml_mu_group.c:223-239 | the warning about too many users never comes: a free slot is found |
| MuGroups.MuInfo.CreateOne | w2l/aml_drv/aml_mu_group.c:267-328 | a shared group is reused; else, with more than two users a group, one that has room is completed; else the least recently used one is replaced, which is recorded; in all cases only that group changes and it moves to the front |
| MuGroups.MuInfo.Complete | w2l/aml_drv/aml_mu_group.c:292-318 | finds a group to complete if and only if there is one |
| MuGroups.MuInfo.Create | w2l/aml_drv/aml_mu_group.c:345-374 | terminates by progress on the list, keeps consistency, counts two of the number left for each group created, and takes the pairs of the station with those that follow in order until none are left |
| MuGroups.MuInfo.Message | w2l/aml_drv/aml_mu_group.c:125-143 | the places of a station are found without a warning: the list sent is exactly its groups with its position in each, as many as cnt says |
| MuGroups.MuInfo.Work | w2l/aml_drv/aml_mu_group.c:413-452 | afterwards both station lists are empty, the firmware knows every station's places if it was in touch before, every active station notes the run, at most half of an even number of groups were created, and the first pairs of the active list, up to half of the groups, share one (exactly those, in groups of two and for stations all apart before); the groups with two or more listed users that had traffic of 50 or more before the run are ranked by that traffic and given out, and the traffic of the list is counted anew |
| MuShare.GroupedPairs | w2l/aml_drv/aml_mu_group.c:345-374 | pairs put together in a run stay together: the groups used are at the front, out of reach of replacement |
| MuShare.WorkShares | w2l/aml_drv/aml_mu_group.c:376-412 | the promise that all possible groups are created, up to the quota: whatever groups there were, the first pairs of the active list share one after the run, if there are at least as many groups as pairs |
| MuShare.WorkExactly | w2l/aml_drv/aml_mu_group.c:376-452 | stations that all were apart, in groups of two: after the run exactly the first pairs of the active list share a group, as many as half of an even number of groups allows; so all of k stations share one if and only if k(k-1) is at most that number |
| MuShare.PairListOnce | w2l/aml_drv/aml_mu_group.c:345-374 | the pairs are taken in an order in which none comes twice |
| MuGroups.LeftApart | w2l/aml_drv/aml_mu_group.c:376-452 | a run of three active stations on two groups of two: the first two of the list share a group, the last one is left apart from both |
| MuGroups.PairChosen | w2l/aml_drv/aml_mu_group.c:568-659 | a run of two active stations: both are given the group they share |
| MuSort.SortByTraffic | w2l/aml_drv/aml_mu_group.c:619-631 | the bubble sort terminates, permutes the table and leaves falling traffic |
| MuSort.SwapRemovesOne | w2l/aml_drv/aml_mu_group.c:624-629 | each swap removes exactly one inversion |
| MuGroups.MuInfo.Tally | w2l/aml_drv/aml_mu_group.c:594-617 | users and traffic of every group, counted over the busy stations, and the table of groups with two or more, each once |
| MuGroups.MuInfo.Select | w2l/aml_drv/aml_mu_group.c:568-659 | the order ranks exactly the eligible groups by falling traffic, with any number of users a group those given out are those with two busy users left in their turn, and every station has the last of them that it is in; with two users a group that is the greedy matching; traffic of the list starts anew and nothing else changes |
| MuSelect.RanksBusyIs | w2l/aml_drv/aml_mu_group.c:594-631 | a group is ranked if and only if two listed stations in it had traffic of 50 or more |
| MuSelect.CountedOutAll | w2l/aml_drv/aml_mu_group.c:640-652 | giving a group out takes from every other group one for each user that the two have in common |
| MuSelect.HandOver | w2l/aml_drv/aml_mu_group.c:633-653 | giving a group out keeps what was settled for the groups ranked before it |
| MuSelect.PassOver | w2l/aml_drv/aml_mu_group.c:638-639 | a group is passed over only because one of its users was given a group ranked before it |
| MuGroups.MuInfo.StaDel | w2l/aml_drv/aml_mu_group.c:46-99 | a deletion keeps the tables consistent if and only if no group of the station has just one other user, and keeps the firmware in touch if and only if the other users of such pairs are due for an update anyway |
| MuLeave.DeletionConsistent | w2l/aml_drv/aml_mu_group.c:62-78 | the same on values: the slot of the user left alone is not cleared |
| MuLeave.DeletionTold | w2l/aml_drv/aml_mu_group.c:62-78 | nor is that user put on the update list |
| MuLeave.AllPairs | w2l/aml_drv/aml_mu_group.c:62-78 | with two users a group every deletion from a group is such a case |
| MuLeave.DeletedStale | w2l/aml_drv/aml_mu_group.c:62-78 | a group of two that a station leaves has a filled slot and a counter of 0 |
| MuLeave.DeletionSound | w2l/aml_drv/aml_mu_group.c:46-99 | what a deletion keeps whatever the groups of the station: who is in a group by its bitmap has a slot in it, a group that counts users has just those, counts of groups are right and so is the number of groups in use |
| MuLeave.StaleEviction | w2l/aml_drv/aml_mu_group.c:179-187 | when such a slot is emptied later its station is told at last, but its count of groups becomes one too low |
| MuGroups.PairBreaks | w2l/aml_drv/aml_mu_group.c:46-99 | a run of the allocator that gets there: two stations join, have traffic, are grouped, and one leaves; the tables disagree and the firmware still has the other one in the group |
| MuLeave.LeavingStep | w2l/aml_drv/aml_mu_group.c:55-85 | one round of the deletion; its warning that the station is not in the group never comes |
| MuGroups.MuInfo.MoveHead | w2l/aml_drv/aml_mu_group.c:152-159 | the list of groups stays a permutation, with the group in front |
| MuGroups.MuInfo.SetActiveSta | w2l/aml_drv/aml_mu_group.c:507-528 | traffic is counted; the station moves to the front of the active list unless it was in the last run and the list is empty |
| MuSteps.ActivatedExactly | w2l/aml_drv/aml_mu_group.c:507-528 | the traffic is added to that of the station and to no other; the station is then first of the active list, with all others still on it, unless it was in the last run and the list is empty |
| MuGroups.MuInfo.StaInit | w2l/aml_drv/aml_mu_group.c:21-36 | a station joins; the firmware is in touch again |
| MuGroups.MuInfo.constructor | w2l/aml_drv/aml_mu_group.c:461-485 | all groups empty, listed from the last to the first |
| MuGroups.MuInfo.Serve | w2l/aml_drv/aml_mu_group.c:46-659 | over every sequence of joins, traffic, uses, runs and departures up to the first that breaks a pair, the tables are consistent and the firmware in touch |
| P2pFormat.RoundTrip | w2l/aml_drv/aml_p2p.c:49-58 | elements and channel lists read back as written |
| P2pFormat.ParsedBytes | w2l/aml_drv/aml_p2p.c:49-58 | and written as read |
| P2pFormat.AttrsRoundTrip | w2l/aml_drv/aml_p2p.c:145-153 | attributes, with their two length octets, read back as written |
| P2pFormat.ParsedAttrsBytes | w2l/aml_drv/aml_p2p.c:145-153 | and written as read |
| P2pChannels.ChosenNarrows | w2l/aml_drv/aml_p2p.c:71-124 | the entry loop applies the rule to every class but a last one with at most one channel |
| P2pChannels.ChosenExactly | w2l/aml_drv/aml_p2p.c:73-124 | it gives the narrowed list if and only if the last class has two channels or more or contributes nothing |
| P2pChannels.OverlooksLast | w2l/aml_drv/aml_p2p.c:73-124 | a concrete list whose last class is overlooked |
| P2pChannels.FiveGhz | w2l/aml_drv/aml_p2p.c:78-121 | concrete lists on a 5 GHz channel, for a peer that supports the band and one that does not |
| P2pChannels.NarrowedPairs | w2l/aml_drv/aml_p2p.c:78-121 | the rule keeps exactly the wanted pairs of class and channel: those with the channel in use, and 2.4 GHz classes if the peer cannot use it |
| P2pChannels.ChosenPairs | w2l/aml_drv/aml_p2p.c:61-127 | the pairs left are a subset of the original ones |
| P2pRewrite.RewriteChanList | w2l/aml_drv/aml_p2p.c:61-127 | the entries are overwritten in place by those chosen, nothing else changes, and their length is returned |
| P2pRewrite.Choose | w2l/aml_drv/aml_p2p.c:73-124 | the local buffer is filled with exactly the entries chosen, within its 200 octets |
| P2pRewrite.Close | w2l/aml_drv/aml_p2p.c:163-174 | both lengths shrink by the difference, that of the element modulo 256, and the tail moves up |
| P2pRewrite.MoveDown | w2l/aml_drv/aml_p2p.c:174 | the overlapping move, octet by octet from below |
| P2pLayout.Layout | w2l/aml_drv/aml_p2p.c:141-153 | a frame is its parts in order, with both lengths right |
| P2pLayout.RewrittenReads | w2l/aml_drv/aml_p2p.c:129-176 | the rewritten frame reads back as the same elements but the P2P element, in it the same attributes but the list, in it the same country and the entries chosen |
| P2pFrames.GetP2pOffset | w2l/aml_drv/aml_p2p.c:43-59 | the position of the P2P element, 0 if there is none |
| P2pFrames.FindList | w2l/aml_drv/aml_p2p.c:144-156 | the search finds something if and only if the P2P element has a channel list, which is found then, or if, taking what follows that element for attributes, it meets one of that number, which is found then |
| P2pFrames.ChangeChanList | w2l/aml_drv/aml_p2p.c:129-176 | the frame becomes the octets of the rewritten frame, shorter by what is reported; it stays as it is if no list is found or nothing of it is left; octets behind the P2P element that are taken for a list are narrowed as if they were one |
| P2pFrames.StrayLength | w2l/aml_drv/aml_p2p.c:144-174 | in the last case the P2P element keeps its octets, but if the frame gets shorter its length is not theirs any more |
| P2pFrames.RefusalStrays | w2l/aml_drv/aml_p2p.c:144-156 | a whole frame without a list, followed by two elements that the search takes for one |
| P2pFrames.RefusalRewritten | w2l/aml_drv/aml_p2p.c:129-176 | what becomes of it on channel 6: two octets less, and a P2P element that ends within an attribute |
| DnsNames.EndsInTime | w2l/aml_drv/aml_mdns_offload.h:160-180 | decoding ends if and only if it does so before meeting more positions than the packet has |
| DnsNames.EndsUnlessLoops | w2l/aml_drv/aml_mdns_offload.h:160-180 | it does so if and only if the walk over labels and pointers does not come back to a position; if it comes back, however long the way, decoding never ends |
| DnsNames.PointersMeet | w2l/aml_drv/aml_mdns_offload.h:161-167 | a concrete packet for that: two pointers to each other |
| DnsNames.SameAsStandard | w2l/aml_drv/aml_mdns_offload.h:160-180 | if no label met has 64 octets or more and no pointer is cut by the end of the packet, the labels are those of section 4.1.4 of RFC 1035 if it expands the name and all are printable, and there is an error if not |
| DnsNames.NotStandard | w2l/aml_drv/aml_mdns_offload.h:160-180 | if one is met the standard has no expansion, however far it is followed |
| DnsNames.FollowsStandard | w2l/aml_drv/aml_mdns_offload.h:160-180 | for every name that the standard expands, decoding ends and meets neither |
| DnsNames.LabelTooLong | w2l/aml_drv/aml_mdns_offload.h:168-177 | a concrete packet with a label of 64 octets, which is accepted |
| DnsNames.PointerCut | w2l/aml_drv/aml_mdns_offload.h:161-167 | a concrete packet with a pointer at its last octet: the octet beyond decides |
| DnsNames.DecodedIs | w2l/aml_drv/aml_mdns_offload.h:160-181 | the text is the labels with dots between them, and one more dot if the last label is followed by a pointer to the end |
| DnsNames.DotTooMany | w2l/aml_drv/aml_mdns_offload.h:178-179 | a concrete packet for the dot too many |
| DnsNames.OneLetter | w2l/aml_drv/aml_mdns_offload.h:171-177 | of all octets exactly the 94 printing characters of ASCII make a label |
| DnsNames.DecodedExactly | w2l/aml_drv/aml_mdns_offload.h:178-179 | so it is the dotted name if and only if it does not end by a pointer |
| DnsDecode.StandardDecoded | w2l/aml_drv/aml_mdns_offload.h:141-186 | for standard names of at most 255 octets the decoder stays within its buffer and does not depend on the octet beyond the packet |
| DnsDecode.NameExactly | w2l/aml_drv/aml_mdns_offload.h:153-181 | a name without errors, by the length of its labels with dots between them and the dot too many: above 256 octets a write passes the buffer, at 256 the buffer is full and has no end mark, below that the text and its end mark fit |
| DnsDecode.ErrorExactly | w2l/aml_drv/aml_mdns_offload.h:153-181 | a name with an error: a write passes the buffer before it if and only if the dotted labels before it and the printable part of the one that has it exceed 256 octets |
| DnsDecode.LoopExactly | w2l/aml_drv/aml_mdns_offload.h:160-181 | a walk that comes back to a position: a write passes the buffer sooner or later if and only if there is a label on the way round, or the labels before, with a dot after each, exceed 256 octets |
| DnsDecode.BufferFilled | w2l/aml_drv/aml_mdns_offload.h:153-181 | concrete packets: labels of 191 and 64 octets leave no room for the end mark, of 191 and 65 write past the buffer |
| DnsDecode.LabelRound | w2l/aml_drv/aml_mdns_offload.h:160-181 | a concrete packet: a label followed by a pointer to it, which overruns the buffer |
| DnsDecode.PointersWriteNothing | w2l/aml_drv/aml_mdns_offload.h:161-167 | a concrete packet: two pointers to each other never do |
| DnsDecode.OverrunExactly | w2l/aml_drv/aml_mdns_offload.h:160-180 | for any number of rounds, a write passes the buffer if and only if the octets these write, one label, dot or printable part after the other, are more than it has |
| DnsDecode.DecodesName | w2l/aml_drv/aml_mdns_offload.h:160-181 | else a name that ends gives the text specified, with or without room for the end mark, or an error |
| DnsDecode.RunsOn | w2l/aml_drv/aml_mdns_offload.h:160-180 | and one that does not end keeps the decoder running until a write passes the buffer, if one does |
| DnsDecode.DecodeQname | w2l/aml_drv/aml_mdns_offload.h:141-186 | the decoder, for any packet and position and any number of rounds of its loop, computes what is specified: the name, one without an end mark, an error, a write past its buffer, or no end so far |
| DnsDecode.CopyLabel | w2l/aml_drv/aml_mdns_offload.h:171-177 | a label is copied if and only if all its octets are printable |
| CfgText.HexRoundTrip | w2l/aml_drv/aml_cfg.c:203 | a printed number is read back, whatever follows that is not a digit |
| CfgText.DigitValues | w2l/aml_drv/aml_cfg.c:314-337 | the sixteen digits, as printed and in capital letters |
| CfgText.LoweredStrtoul | w2l/aml_drv/aml_cfg.c:314-316 | a number is read alike in either case |
| CfgText.FindsFirst | w2l/aml_drv/aml_cfg.c:107-127 | the tag found is on the first line that matches name and length, and none is found only if no line does |
| CfgText.FindTag | w2l/aml_drv/aml_cfg.c:107-127 | the scanning loops compute that |
| CfgText.FindsTag | w2l/aml_drv/aml_cfg.c:107-127 | in a file of tags the value of the first tag of that name and length is found |
| CfgFile.ScanBack | w2l/aml_drv/aml_cfg.c:320-330 | an address printed is read back |
| CfgFile.EditedBack | w2l/aml_drv/aml_cfg.c:320-341 | an address edited to capital letters is read as the one printed |
| CfgFile.FileText | w2l/aml_drv/aml_cfg.c:199-216 | the text of a new file, line by line and octet by octet |
| CfgFile.ChipBack | w2l/aml_drv/aml_cfg.c:310-318 | the 48 bits of the chip identifier are read back if no hexadecimal digit follows the copy of its high word |
| CfgFile.ChipHighExactly | w2l/aml_drv/aml_cfg.c:315-316 | that copy has no end mark: the word is right if and only if the digits that follow, however many, add a multiple of 2^32 to it |
| CfgFile.ChipHighShort | w2l/aml_drv/aml_cfg.c:315-316 | which up to four digits do if and only if there are none or all of it is 0 |
| CfgFile.ReadsBack | w2l/aml_drv/aml_cfg.c:258-346 | creating the file and reading it back gives the addresses and the chip identifier of exactly the tags that were written |
| CfgFile.WritesExactly | w2l/aml_drv/aml_cfg.c:145-149 | a tag is written if and only if the buffer that is not set before the length of its text is taken holds few enough octets |
| CfgFile.SplitBack | w2l/aml_drv/aml_cfg.c:189-194 | the words made of the VIF0 address split back to it, and as words of the chip they do if and only if neither half is all 0 |
| CfgFile.WordsOfFile | w2l/aml_drv/aml_cfg.c:376-403 | the word pair made of the VIF0 tag of the file that was written splits back to the address that was stored |
| CfgFile.PastLineExactly | w2l/aml_drv/aml_cfg.c:137-142 | the line of a tag is written past its buffer if and only if name and value have 62 to 64 characters together, which the three tags of a file have not |
| CfgFile.ConfFile.StoreTag | w2l/aml_drv/aml_cfg.c:129-155 | wherever the file is read from, what is left of it up to the size of a buffer is passed over and the tag written over what follows, as a line, or left out; it says how many octets of a line go past the buffer for it |
| CfgFile.ConfFile.Append | w2l/aml_drv/aml_cfg.c:129-155 | at the end of a file, a tag whose line fits its buffer is appended or left out |
| CfgFile.ConfFile.ToFile | w2l/aml_drv/aml_cfg.c:199-216 | the three tags of a new file |
| CfgFile.ConfFile.FromFile | w2l/aml_drv/aml_cfg.c:294-346 | what is read from a file, tag by tag |
| CfgFile.ConfFile.MacWords | w2l/aml_drv/aml_cfg.c:376-403 | the word pair made of the VIF0 tag |
| RpsTable.Mask | w2l/aml_drv/aml_rps.c:163-168 | the loop terminates and the mask is one less than the least power of two not below the count |
| RpsTable.EverySlot | w2l/aml_drv/aml_rps.c:187-195 | a hash under the mask is its remainder by the number of slots, so every hash has a slot and every slot a hash |
| RpsTable.RxQueue.SetTable | w2l/aml_drv/aml_rps.c:149-210 | the table of a queue is replaced by one of that size, or kept on each of the errors |

## Left out

- Flags of a command are booleans rather than bits of one word, and each change of a flag outside
  the lock is one atomic step; the races of unsynchronised read-modify-write are not modelled.
- `result` is an integer rather than an unsigned word holding a negative error.
- The copy of a confirmation into the caller's buffer, the freeing of commands, the AML_DEV_STARTED
  flag, register dumps and the recovery that follow a crash, and late answers to a crashed manager.
- CmdTheorems.NothingLost: draining is one step and takes the manager down, crashed or not, as
  deinitialisation calls it; a drain that leaves the manager up is not modelled.
- CmdManager.CmdMgr.MsgInd: which commands a callback turns down is a parameter.
- Real time: a timeout may come at any moment, and the selection interval is a parameter.
- The FHOST and SOFTMAC variants.
- The banner after a trace reset, whose position is not moved when the buffer is emptied.
- The branches for a corrupted shared ring and for a record larger than the local buffer, which
  what is given rules out; the lock word shared with the firmware; waiting for traces, faults of
  copies to user space.
- TraceSession.Session.Reset: a reset before everything was copied, as on a corrupted ring, loses
  the records not copied; the sessions here are those without.
- TraceSession.Session.FirmwareWrites: sessions are those in which the firmware does not overtake
  the reader. What a reader gets that was overtaken is in `TraceShared.Copy`, one copy at a time.
- TraceShared.Copy: a reader that was overtaken, and finds its first word again where no record of
  the ring starts and none follows, takes other words for records; it is not modelled.
- TraceSession.Session.Read: models the call that does not wait.
- MuGroups.MuInfo.Select: covers one access point; the table of the source is not reset for a
  second one.
- MuGroups.MuInfo.StaDel: the station stays in the table of stations, without groups, until it is
  initialised again.
- MuGroups.MuInfo.Serve: stops before the first departure that breaks a pair, which with two users a
  group is any departure from a group. `MuLeave.DeletionSound` says what such a departure keeps and
  `MuLeave.StaleEviction` what follows from it; the operations on a table with stale slots are not
  modelled further.
- MuShare.WorkExactly: that no other pairs share a group is for groups of two, as shipped; with more
  users a group one group serves several pairs.
- MuShare.WorkShares: with more pairs than groups, and stations that shared groups before, the groups
  taken up first in a run may be replaced later in it; the pairs that are left then are not stated.
- MuSelect.HandOver: with more than two users a group, users given a group twice and users without
  traffic are discounted more than once, so that the greedy matching is stated for two; which groups
  are given out is stated for any number (`MuGroups.MuInfo.Select`).
- Bitmaps of groups are sets; at most 62 groups is not used.
- P2pFrames.ChangeChanList: a list, found in the P2P element or behind it, is one: three octets of
  country and entries that fill it exactly, within the frame, at most 200 octets. For other octets
  the source reads and writes where it should not. Lengths that overrun the frame are left out too.
- P2pFrames.FindList: the buffer has two octets more than the frame, which the source may read.
- The operating channel and the group owner intent of a P2P frame, and `aml_scc_compare_oper_class`:
  single octets.
- DnsDecode.DecodeQname: a write past the buffer is an outcome, as is a name without an end mark;
  what is overwritten, or read past the end, is not modelled. The number of rounds is a parameter,
  since the loop need not end.
- Reading the chip's own words, random addresses and `aml_cfg_check_macaddr`: bits set and cleared.
- CfgFile.ConfFile.StoreTag: the length of the buffer that is not set is a parameter; what a line
  written past its buffer overwrites is not modelled, and the file is left alone then.
- RpsTable.RxQueue.SetTable: the limit of 64-bit machines; counts are unbounded numbers, which the
  mask never exceeds beyond the next power of two.
- Bus and register code, netlink and debug files, message handlers, power and rate tables, and the
  rotation of preallocated buffers.
