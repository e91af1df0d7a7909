# HyMRPL: a verified model

HyMRPL extends an RPL daemon (RFC 6550) with a hybrid mode of operation, MOP 6, in which every node
is either *class S* (storing-like: keeps downward routes and forwards hop by hop) or *class N*
(non-storing-like: leaves downward routing to the root). This project models four parts of it and
proves properties of whole runs.

* **DODAG formation and downward routing.** `DagState` says what one DIO, DAO or liveness check does
  to a node's state; the classes in `Dag` are the handlers statement by statement, proved against it;
  `Network` lets any number of nodes run them, with messages that are lost, repeated, delayed and
  reordered at will (a message once sent may be delivered at any later time, any number of times).
  `Ranks`, `Downward`, `Coverage` and `SourceTree` hold for every run in which no parent is given up, on
  every topology whose paths a 16-bit rank can count (`Wraparound`); `Cycles`, `SecondRoot`, `Liveness` and
  `Failures` say what failures leave of that. `Announcements` says, by the number of the mode of operation,
  which DAOs are sent, what is in them, who holds routes and who feeds the source-route tree.
* **DAO options as bytes.** `DaoOptions` prints and walks the type/length list, `OptionBounds` says when
  the walk keeps to the message, and `DaoExchange` joins the DAO a node builds to what another node reads.
  `Messages` lays out whole DIOs and DAOs byte by byte.
* **Adaptive class switching.** `Metrics` states every bounded buffer and average over the full history
  behind it; `AdaptiveEngine` is the struct with its operations; `Hysteresis`, `FifoSec` and `Daemon`
  are the switch decision, the command guard and the one-second callback; `SwitchRuns`,
  `BoundedResponse` and `EvaluationRuns` are about whole runs of that callback, `Obedience` says which texts
  make it switch to which class, and `Thresholds` puts the engine's decision in numbers.
* **Authenticated commands.** `Hex` and `Command` print and verify the class commands, `Backlog` is about
  commands that wait in the FIFO.
* `MeshStart` is the breadth-first start order of the mesh harness, and `MeshRanks` ties its depths to
  the ranks the network converges to.

Functions such as `DagState.ReceiveDio`, `FifoSec.Check` or `Daemon.OnTick` specify; the class methods
beside them change state and are proved equal to them; the lemmas are about the functions. Laws about
constants, offsets and modes are stated in literal numbers, not by the names the functions use.

## Assumptions

Bodies that the repository does not contain are taken as follows: a fresh peer has rank 0xFFFF; a DIO
carries the sender's `my_rank`; `dag_lookup_child_or_create` keeps an existing entry and appends a new
one; a DAO holds the node's own target, then its transit option, then aggregated children; `dag_process_dio`
(process.c:130) changes nothing that the model keeps; one address stands for the link-local and the global address of a node. Floats are reals, the clock is a parameter,
HMAC-SHA256 is an arbitrary function of token and text.

## Where code and documentation differ

The model follows the code. The lemmas named with a difference give a concrete case, the exact
condition, or both.

* Ranks have 16 bits. Some quiet run wraps a rank around to 0 exactly if the topology has a path of 65,536
  nodes from the root (`Wraparound.WrapsIff`); no topology of 65,535 nodes has one, and one with one node
  more does (`Wraparound.OneNodeMoreWraps`). On all others ranks are exact (`Ranks.RankIsBestHeard`).
* An orphan is said to adopt a neighbour *with a valid rank*; it adopts any.
  Ranks are no safeguard against cycles of parents: one invalidation and finite ranks make a cycle
  (`Failures.OrphanAdoptsItsChild`). All chains of parents go on reaching the root exactly as long as no
  orphan hears of, and so adopts, a node that is behind it (`Cycles.StepKeepsRootedIff`,
  `Cycles.RunKeepsRootedIff`). A closed cycle stays until the liveness timer of a node on it gives up its
  parent (`Cycles.CycleStays`).
* Rank 1 is said to be the root's. Two invalidations can give it to a second node
  (`Failures.OrphanBecomesSecondRoot`). In any run a node acts as a second root exactly if a DIO of rank 0
  reaches it (`SecondRoot.ActsAsRootIff`), and ranks stay sound, so that there is no such DIO, exactly as
  long as no DIO of rank 0xFFFF reaches a node without a live parent (`SecondRoot.RunKeepsSoundIff`).
* A silent parent is said to be given up after the timeout. Whatever else the node hears, it is given up in
  bounded time exactly if no DIO of rank 0 was heard before; a node that takes itself for the root checks no
  parent (`Liveness.SilentParentIsGivenUpIff`, `Liveness.SilentParentIsGivenUp`).
* In hybrid mode a DAO is said to go to the root always; it does so exactly if the accepted rank exceeds
  1 or the parent is the root (`Failures.RootIsAddressedIff`, `Failures.RootIsPassedOver`). The DAO of a
  node that joins does (`SourceTree.JoinDaoGoesToRoot`).
* The root is said to process all targets of a DAO, each with the transit that follows it. It processes
  the first sixteen (`DaoExchange.TreeLearnsAllIff`), all with the last transit, which is the one that
  follows only under the condition of `DaoExchange.EnteredUnderNextTransitIff`; `DaoExchange.LastTransitServesAll`
  is the smallest exception, and every DAO with aggregated children is one (`DaoExchange.BuiltDaoEnteredIff`).
* The root is said to get the whole topology. It is told the right parent of every node that sends it a
  DAO (`SourceTree.TreeSpansPath`), and a wrong one for every address that a node aggregates: for a
  grandchild b behind a it is told that b is behind the root (`SourceTree.PairIsTrueIff`,
  `SourceTree.GrandchildIsToldAsChild`).
* At most three switches per minute, shared by both sources, are promised. Six FIFO switches fit in fifty
  seconds, and the engine never looks at the counter (`SwitchRuns.SixInFiftySeconds`,
  `SwitchRuns.EngineIgnoresMinuteCap`). A fourth command in a minute is obeyed exactly if enough of the
  others came before the present window of the counter (`SwitchRuns.MinuteOverrunIff`). What holds: six per
  sixty seconds, three per counter window, and ten seconds between any two switches.
* Three hysteresis cycles are three calls, one per second, not three evaluations, one per five seconds
  (`SwitchRuns.EngineSwitchIff`); three ticks after a single evaluation are enough
  (`EvaluationRuns.QuietTickSwitchesIff`, `EvaluationRuns.OneEvaluationSuffices`).
* Signed commands printed into the FIFO one after the other before the daemon looks are lost, except the last
  one if their number is one more than a multiple of 127 (`Backlog.BacklogAcceptedIff`). Of plain commands,
  without a token, each look obeys one, class N before class S and not the last one before the others
  (`Backlog.PlainBacklog`), and a command that a look ends in is lost (`Backlog.UnseenIff`).
* The liveness factor is 8 in `rpld_new.c` and 4 in `rpld_parent_liveness.patch`; the model uses 8.

## Model

| member | source | states |
|---|---|---|
| Dag.Dag.ReceiveDio | process.c:88-172 | parent tracking, adoption of a neighbour by an orphan, the rank test, the new rank and default route, and the DAO destinations of every MOP, as one update of the whole state |
| Dag.Iface.ProcessDio | process.c:32-172 | for every DIO laid out field by field: one of a known DODAG updates that DAG alone with the DIO's rank; one of an unknown DODAG is joined exactly if a prefix option that fits follows, with the DIO's MOP, the interface's class, the sender as parent and the rank plus one, and is answered as the MOP says; anything else changes nothing |
| Dag.Iface.ProcessDao | process.c:210-226 | for every DAO laid out field by field: only a known DAG takes notice, of all targets and the last transit, and acknowledges; one byte too many, and nothing but children is recorded and nothing acknowledged |
| Dag.Dag.WalkOptions | process.c:226-284 | on any memory the option loop ends and has recorded every target as a child, kept the first sixteen and the last transit, and says whether it gave up |
| Dag.Dag.ReceiveDao | process.c:228-369 | children are recorded even when the list turns out malformed; only a DAO whose list parses to its end installs routes or feeds the tree, by MOP, rank and class, and is acknowledged |
| Dag.Dag.BuildDao | dag.c.patch:33-77 | the bytes of a DAO in literal numbers: own target, transit, and the targets of all children in MOP 2, 3 and, of class S nodes, 6 |
| Dag.Dag.CheckParent | rpld_new.c:124-166 | a check gives up the parent of a non-root after eight trickle intervals of silence, setting both ranks to 0xFFFF, reports exactly then that it did, and changes nothing otherwise |
| DagState.CheckMeaning | rpld_new.c:131-150 | at eight intervals of silence or more a node other than the root loses its parent's rank and its own to 0xFFFF, and nothing else; before, nothing |
| DagState.RecordAllMeaning | process.c:262-276 | after a DAO the children are the old ones, unchanged, plus exactly the unlisted targets with the sender as origin |
| DagState.NewTargetsAreAppended | process.c:262-276 | the child list grows at its end, in the order of the DAO |
| DagState.InstallAllMeaning | process.c:353-360 | installing routes exactly the child list, each child via the neighbour it came from, and leaves other routes alone |
| Messages.HasPrefixIff | process.c:46-64 | a well-formed prefix option lies behind the header exactly if the type is 3 and the message has room for its eight bytes and its prefix |
| DaoOptions.WalkInvertsPrint | process.c:243-284 | on memory holding any printed option list the walk meets each option at its own offset and continues right behind the list |
| DaoOptions.DaoRoundTrip | rpl.h:153-169 | parsing a printed list of target, transit and other options yields all targets in order and the last transit |
| DaoOptions.StrayByteAborts | process.c:246-249 | one stray byte behind the list makes the walk give up after it has seen every target |
| DaoExchange.BuiltDaoReadsBackAt | dag.c.patch:54-74 | what any node builds is read back in full at any offset: itself, all aggregated children in order, its parent as transit |
| Announcements.DaoSays | dag.c.patch:33-77 | a DAO says the node itself and, in MOP 2, 3 and of class S nodes in 6, all its children, and its parent |
| DaoExchange.TreeLearnsAtMostSixteen | process.c:238-275 | the source-route tree receives one entry for each of the first sixteen announced addresses, in order |
| DaoExchange.TreeLearnsAllIff | process.c:326-348 | the tree hears of every announced address exactly if whatever comes after the sixteenth was announced before, and without repetition exactly if there are at most sixteen |
| DaoExchange.EnteredUnderNextTransitIff | process.c:230-275 | for every option list each of the first sixteen targets is entered under the transit that follows it exactly if all these transits exist and name the parent of the last one |
| DaoExchange.BuiltDaoEnteredIff | dag.c.patch:54-74 | the DAO a node builds is entered that way exactly if it announces nobody but itself |
| DaoExchange.LastTransitServesAll | process.c:230-236 | the smallest exception: with two target/transit groups both targets are entered under the second transit |
| OptionBounds.DependsOnMessageIff | process.c:243-281 | what is made of a DAO depends on the received bytes alone exactly if every target option met has twenty bytes left and every transit option twenty-two |
| OptionBounds.PrintedFits | rpl.h:153-169 | every printed option list meets that condition |
| Ranks.QuietRunInv | process.c:88-128 | the network invariant of every quiet run: ranks, parents, join order, messages in flight and distances to the root agree |
| Ranks.RankIsBestHeard | process.c:121-128 | a joined node's rank is one more than the least rank it ever heard, never below hop distance plus one, and its parent is the sender of the first DIO it processed |
| Ranks.RunImproves | process.c:102-128 | over any stretch of a quiet run membership and parent address stay and ranks never rise |
| Ranks.RanksConverge | process.c:88-128 | after d rounds of DIOs, and ever after, every node within d hops has exactly its hop distance plus one as rank, whatever else is delivered |
| Downward.DefaultRoutesReachRoot | process.c:89-124 | from every joined node default routes lead to the root over nodes that joined earlier and earlier, without repetition |
| Downward.QuietRunDown | process.c:150-168 | in every quiet run DAOs in flight go to parent or root as the MOP says and read back as announced; children and routes agree with the tree of parents |
| Downward.RoutesDeliver | process.c:353-360 | every installed route leads hop by hop to its target, each next node using its own route, down the tree of parents, through nodes that install routes, in exactly the depth difference of hops, without repetition, for every interleaving of DAOs |
| Downward.OnlyClassSForwards | process.c:325-364 | in a hybrid DODAG only class S nodes other than the root ever hold routes |
| Announcements.AcceptedIsAnswered | process.c:121-172 | in every step of every run: an accepted DIO is answered by the DAO of the new state, in MOP 2 and 3 to the parent, in 1 to the root, in 6 to the parent and for ranks above 1 to the root; nothing else sends a DAO |
| Announcements.RoutesHeldIff | process.c:314-364 | in every quiet run a node routes to x exactly if x is among its children and the MOP is 2 or 3, or 6 and the node is of class S and not the root |
| Announcements.OnlyRootFeedsTree | process.c:322-358 | in every quiet run only the root, and only in MOP 1 and 6, feeds the source-route tree |
| Coverage.ChainsAreRouted | dag.c.patch:54-74 | after as many rounds of DAOs as a chain of aggregating nodes has hops, the node on top routes to the one at its end, and keeps doing so |
| Announcements.StoringDescentsAreRouted | dag.c.patch:33-41 | in MOP 2 and 3, after as many DAO rounds as a descent in the tree of parents has hops, every node on it, the root included, routes to its end |
| Announcements.HybridDescentsAreRouted | dag.c.patch:54-74 | in MOP 6, if all nodes between the ends are of class S, exactly the class S nodes other than the root do |
| Announcements.StoringRouteArises | process.c:139-143 | a quiet run in MOP 2 in which a node joins, its DAO arrives and the root routes to it |
| SourceTree.TreeNamesSendersParents | process.c:333-341 | every entry of the tree names the sender's actual parent and a target the sender announces, throughout every quiet run |
| SourceTree.PairIsTrueIff | process.c:326-341 | every target the tree is told of is a joined node, and the transit told with it is its parent exactly if it is the DAO's sender itself |
| SourceTree.GrandchildIsToldAsChild | process.c:333-341 | a quiet run in which the tree is told that a node two hops away is a child of the root |
| SourceTree.ReachableTreeLearnsAllIff | process.c:238-275 | in quiet runs a node never announces an address twice, so its DAO is learnt in full exactly up to sixteen addresses |
| SourceTree.JoinDaoGoesToRoot | process.c:150-167 | a node that joins a hybrid or non-storing DODAG sends a DAO to the root at once |
| SourceTree.HeardIsEntered | process.c:326-341 | once the root has received any DAO of a node, however old, its tree has that node under its parent, for good |
| SourceTree.TreeSpansPath | process.c:326-341 | once it has one from every node on the way from v, its tree has every hop of a path of parents from v to the root |
| Liveness.DioKeepsCoherenceIff | process.c:104-128 | the DIOs that break the relation of rank and parent rank, or give a non-root rank 1, are exactly those of rank 0 and those of rank 0xFFFF at a node without a live parent |
| Liveness.CoherentThroughoutIff | rpld_new.c:137-150 | over all interleavings of DIOs of any rank and checks, a node is coherent throughout (both ranks 0xFFFF, or the own rank the parent's plus one, and never 1) exactly if it hears no DIO of rank 0, and none of rank 0xFFFF while without a live parent |
| Liveness.ActsAsRootIff | process.c:326-326 | over the same interleavings, and without coherence, a hybrid node feeds a source-route tree exactly if it has heard a DIO of rank 0 |
| SecondRoot.StepKeepsSoundIff | process.c:104-128 | in any network state that failures can lead to, with all nodes coherent and no DIO of rank 0 in flight, the only step after which this is not so is a DIO of rank 0xFFFF to a non-root without a live parent |
| SecondRoot.RunKeepsSoundIff | process.c:104-128 | in every run, with invalidations and adoptions in any order, it is so throughout exactly if no such step occurs |
| SecondRoot.ActsAsRootIff | process.c:326-326 | at every point of every run a node other than the root feeds a source-route tree exactly if a DIO of rank 0 has reached it |
| SecondRoot.RootIsAlone | process.c:326-326 | as long as no orphan has been misled in this way, exactly the configured root feeds the tree |
| Liveness.SilentParentIsGivenUpIff | rpld_new.c:131-150 | whatever else the node hears, a silent parent is kept until the first check that is due, and given up by this check exactly if no DIO of rank 0 was heard before, and never if one was |
| Liveness.SilentParentIsGivenUp | rpld_new.c:140-150 | with checks at most five seconds apart that check comes no later than eight trickle intervals plus five seconds after the parent's last DIO |
| Liveness.ParentIsKeptIff | rpld_new.c:131-150 | whatever DIOs the node hears, the parent stays the same live one exactly if each check comes less than eight trickle intervals after one of its DIOs, or after a DIO of rank 0 |
| Liveness.RegularParentIsKept | rpld_new.c:140-142 | a parent whose DIOs follow one another less than eight trickle intervals apart is never given up, whatever else is heard and whenever the checks come |
| Cycles.StepKeepsRootedIff | process.c:102-119 | while all chains of parents reach the root, the only step after which one does not is a DIO to a node with an invalidated parent from another sender whose own chain leads over the receiver |
| Cycles.RunKeepsRootedIff | process.c:104-119 | in every run, with invalidations and adoptions in any order, all chains of parents reach the root throughout exactly if no such step occurs |
| Cycles.StepKeepsCycleIff | process.c:102-124 | a cycle of nodes with live parents survives every step but a check that gives up the parent of one of them |
| Cycles.CycleStays | process.c:102-124 | over any stretch of any run without such a check the cycle stays the same and cut off from the root, whatever DIOs arrive |
| Failures.OrphanAdoptsItsChild | process.c:104-119 | a run with one invalidation that ends in two nodes being each other's parent |
| Failures.OrphanBecomesSecondRoot | process.c:121-128 | a run with two orphans in which one's rank wraps to 0 and the other gets rank 1 and acts as root |
| Failures.RootIsPassedOver | process.c:163-164 | a quiet run in which a node whose parent is not the root sends its DAO to that parent only |
| Wraparound.WrapsIff | process.c:128-128 | on any topology some quiet run wraps a rank to 0 exactly if a path from the root has more than 65,535 nodes |
| Wraparound.OneNodeMoreWraps | process.c:128-128 | no topology of up to 65,535 nodes wraps a rank, and a line of one node more does |
| Metrics.RingSum | hymrpl_adaptive.c:131-138 | summing the filled slots counts the successes among the latest twenty outcomes, partly filled or wrapped around |
| Metrics.FourTimesSuffice | hymrpl_adaptive.c:176-192 | the four-slot buffer gives the stability index of the full history of parent changes |
| Metrics.InstabilityForcesNIff | hymrpl_adaptive.c:206-222 | all delivery ratios and energies lead to class N exactly if three or more parent changes lie in the last minute |
| Thresholds.ClassNIff | hymrpl_adaptive.c:122-222 | over the full histories: class N exactly if 8 s + 6 m e + 2 k m < 15 m, for s successes among the latest m (up to twenty) outcomes, energy e, and k = 3, 2, 1, 0 after 0, 1, 2, 3 or more parent changes in the last sixty seconds |
| Thresholds.EnergyThreshold | hymrpl_adaptive.c:206-222 | with perfect delivery and 0, 1 or 2 recent changes class N is decided exactly below an energy of 1/6, 1/2, 5/6, and always with three |
| Thresholds.DeliveryThreshold | hymrpl_adaptive.c:206-222 | at full energy and stability class N is decided exactly if fewer than eight of the latest twenty succeeded |
| Metrics.EmaError | hymrpl_adaptive.c:235-236 | after k evaluations of a constant reading the average is off by exactly 0.7 to the k times the initial error |
| Metrics.LowEnergyEventuallyNIff | hymrpl_adaptive.c:228-242 | from whatever average, with perfect delivery and stability, a constant reading leads to class N for good exactly if it is below one sixth, or is one sixth and the average is below it |
| Metrics.TenPercentTakesEight | hymrpl_adaptive.c:228-242 | at ten per cent from a full average class N is first decided at the eighth evaluation, and from then on always |
| AdaptiveEngine.Engine.RecordDao | hymrpl_adaptive.c:89-97 | the ratio is always that of the latest twenty of all outcomes ever recorded |
| AdaptiveEngine.Engine.ParentChanged | hymrpl_adaptive.c:99-120 | the shift buffer holds the last four of all changes ever recorded, provided time does not go back |
| AdaptiveEngine.Engine.Evaluate | hymrpl_adaptive.c:228-242 | one evaluation updates average, stability and score, and keeps each in [0, 1] for readings in per cent |
| AdaptiveEngine.Engine.GetRecommendation | hymrpl_adaptive.c:259-290 | the recommendation is the hysteresis step on the decision of the present metrics |
| Hysteresis.CounterIsStreak | hymrpl_adaptive.c:264-280 | the counter is the length of the present run of like calls modulo three |
| Hysteresis.RecommendsIff | hymrpl_adaptive.c:259-290 | a call recommends exactly if it ends a multiple of three like calls in a row |
| Command.PrintMessage | hymrpl_cmd.c:197-211 | the printed message is the signed text, a bar, the HMAC in hexadecimal and a newline |
| Command.VerifyHmac | hymrpl_adaptive.c:369-454 | the parser with its loops returns class and nonce as specified, or nothing |
| Command.AcceptedIffAuthentic | hymrpl_adaptive.c:382-453 | a message is accepted exactly if its field decodes to the HMAC of all bytes before the second bar, its nonce is hexadecimal, and only line ends follow |
| Command.CommandRoundTrip | hymrpl_cmd.c:197-211 | for every class, 64-bit nonce and token the printed message fits the buffer and is accepted as sent |
| Hex.PrintedDigit | hymrpl_cmd.c:197-211 | each printed digit is the lower-case one of its weight, the most significant first |
| Hex.PrintedByte | hymrpl_cmd.c:204-206 | the bytes of the HMAC are printed in order, two digits each |
| Command.SignedIsInjective | hymrpl_cmd.c:197-198 | different commands are signed by different texts |
| Backlog.BacklogAcceptedIff | hymrpl_adaptive.c:475-491 | of any number of signed commands waiting in the FIFO every look rejects what it takes, except that the last command is accepted exactly if their number is one more than a multiple of 127 |
| Backlog.PlainBacklog | hymrpl_adaptive.c:475-512 | without a token a look at any number of waiting lines obeys class N if it takes the whole of any such line, else class S if it takes one, else nothing |
| Backlog.UnseenIff | hymrpl_adaptive.c:475-481 | no look takes the whole of a waiting line exactly if one of them ends inside its name |
| FifoSec.FifoGuard.CheckFifo | hymrpl_adaptive.c:456-561 | authentication, replay filter, minute window, both rate limits and the switch of all interfaces, as one update of guard and table |
| Obedience.ObeysIff | hymrpl_adaptive.c:456-561 | at every tick of every run the daemon obeys with class cls exactly if the FIFO holds a command of that class (signed with a fresh nonce if there is a token; otherwise naming it before the first NUL, class N before class S), ten seconds after the last switch and as long as fewer than three are counted in the minute |
| Obedience.PrintedCommandIsObeyed | hymrpl_adaptive.c:483-561 | a printed command of either class with a fresh nonce, within the limits, leaves every interface and DAG in place and in that class |
| Obedience.CheckLeaves | hymrpl_adaptive.c:493-560 | what a look at the FIFO leaves of nonce, minute, counter and timestamp, for obeyed commands, refused ones and other texts |
| Obedience.TickLeaves | rpld_new.c:172-239 | of the guard's state a tick changes what the look at the FIFO does, and the timestamp if the engine switches |
| Obedience.SwitchMeaning | hymrpl_adaptive.c:540-555 | a tick that switches, by either source, puts every interface and DAG in the class of the switch and changes nothing else of them; other ticks change none |
| FifoSec.CurrentClassIs | rpld_new.c:178-200 | the engine is asked about the class of the first DAG in list order, and about class S as long as there is none |
| FifoSec.InterfaceTable.SetAllClasses | hymrpl_adaptive.c:540-555 | the nested loop gives every interface and DAG the new class and changes nothing else |
| Daemon.Daemon.PeriodicTick | rpld_new.c:172-239 | the FIFO comes first; otherwise the engine is asked with the first DAG's class, and its answer is dropped within ten seconds of the last switch |
| SwitchRuns.SwitchesAreBounded | hymrpl_adaptive.c:531-537 | over any run switches of both sources are ten seconds apart, so an interval of length L holds at most floor(L/10)+1 |
| SwitchRuns.SixPerMinute | hymrpl_adaptive.c:517-529 | any sixty seconds hold at most six FIFO switches |
| SwitchRuns.FourSpanAReset | hymrpl_adaptive.c:519-529 | between the first and the fourth of four successive FIFO switches the minute counter was reset |
| SwitchRuns.MinuteOverrunIff | hymrpl_adaptive.c:517-529 | an obeyed command is the fourth or later within sixty seconds exactly if the counter, after its window has been looked at, and the FIFO switches of these sixty seconds before the window together make three or more |
| SwitchRuns.SixInFiftySeconds | hymrpl_adaptive.c:518-529 | from every start, with and without a token, there is a run in which six commands are obeyed within fifty seconds |
| SwitchRuns.NoncesIncrease | hymrpl_adaptive.c:493-502 | the nonces let through over a run strictly increase |
| SwitchRuns.PassedMessageIsSpent | hymrpl_adaptive.c:483-537 | with a token, a message that passed the replay filter once, applied or rate-limited, is a replay ever after |
| SwitchRuns.ClassesAgree | process.c:77-78 | from the first switch on every interface and every DAG, including those created later, has the class last switched to |
| SwitchRuns.EngineSeesLastSwitch | rpld_new.c:193-210 | the class the engine is asked about is the one last switched to by either source, once there is a DAG |
| SwitchRuns.EngineSwitchNeedsThreeCalls | rpld_new.c:204-237 | when the engine switches, the last three times it was asked it computed that class and the node was in the other, whatever FIFO commands came between |
| SwitchRuns.EngineSwitchIff | rpld_new.c:204-237 | a tick of any run makes the engine switch exactly if it is asked, this call ends a multiple of three like ones in a row, and the last switch is ten seconds back |
| EvaluationRuns.QuietTickSwitchesIff | hymrpl_adaptive.c:228-290 | at any point of any run, whatever was evaluated last, the first of the following quiet ticks to switch is the first that completes a group of three, counted on from the present state of the hysteresis, with the last switch ten seconds back |
| EvaluationRuns.OneEvaluationSuffices | hymrpl_adaptive.c:228-290 | a run in which the third tick after the only evaluation switches the node to class N |
| BoundedResponse.SwitchComesWithinTwelveTicks | rpld_new.c:204-237 | a steady decision against the current class is applied within twelve ticks from any reachable state, although a deferred recommendation resets the counter |
| BoundedResponse.ElevenTicksMayNotSuffice | hymrpl_adaptive.c:279-284 | right after a switch, with ticks one second apart, nothing is switched before the twelfth tick |
| BoundedResponse.RunsAreReachable | rpld_new.c:172-239 | every state of a run meets the conditions of the twelve-tick bound |
| MeshStart.Depths | test/hymrpl_mesh_resilience.py:226-236 | the queue loop ends with exactly the reachable nodes, each with its shortest-path distance from node 0 |
| MeshStart.StartRpld | test/hymrpl_mesh_resilience.py:222-247 | exactly the reachable nodes outside the skip set are started, each once, nearer ones first |
| MeshRanks.DepthPlusOneIsRank | test/hymrpl_mesh_resilience.py:231-235 | on the harness's topology a node's converged rank is its breadth-first depth plus one |

## Left out

- Dag.Iface.ProcessDio: does not keep the prefix that a new DAG records, which process.c:67 copies with up to 32 bytes into room for 16.
- Dag.Dag.CheckParent: reports that a parent was given up, but not the flush of the prefix route, the restart of the DIO timer and the notice to the engine that follow.
- Netlink, sockets, libev, logging, Lua configuration and file access: foreign calls; kernel routes are a map, timers are events with a time.
- The root's source-route tree itself (`t_insert`, `t_path`, `nl_add_source_routes`): not in the repository; the model records what it is told.
- The flush of the prefix route when a parent is given up (`nl_del_route_via`): its body is not part of this model, and nothing is claimed of kernel routes after an invalidation.
- Class switches during a network run: `Network` keeps the configured classes; switching is modelled per daemon.
- Further instances and DODAGs in `Network`: one DODAG there; `Dag.Iface` handles any number.
- `hymrpl_adaptive_notify_dao_sent` and `hymrpl_adaptive_notify_parent_change`: their bodies are not part of this model; outcomes and parent changes are direct events of the engine.
- Lenient `sscanf` input in the nonce and HMAC fields (blanks, signs, a lone digit): a field with anything but hexadecimal digits is rejected in the model.
- Pad1 options: the walk reads every option as type and length, unlike section 6.7.2 of RFC 6550, so the round trip excludes them only in that it prints two bytes for type 0.
- Rounding of `float` arithmetic and the parsing of battery files.
- The SIGUSR1 reload of the DIO interval: the liveness bounds are for a fixed interval.
- Token files, their generation, and FIFO permissions.
- DIS messages and DAO acknowledgements beyond being sent: no state depends on them.
