# Taurus backend: verified models of its state machines and algorithms

This project models the parts of the Taurus backend whose correctness depends on more than one
request, and proves what they promise.

* **Supervisor command dispatch.** A daemon on every host sends heartbeats and result reports; the
  backend answers a heartbeat with installs, program commands and log commands. Rows are marked when
  they are handed out and released when a host comes back after an outage. `SupervisorBackend` is
  the server, one method a request, working phase by phase over its tables; `SupervisorModel` says
  what a request does to one row; `SupervisorMeaning` states the same as decision tables over the
  columns and the values they hold; `SupervisorRuns`, `SupervisorRecovery` and `SupervisorReports`
  are about runs: any interleaving of requests, timeout sweeps and newly created work, over any
  number of hosts.
* **Approval of an ops execution.** OR-sign and AND-sign, delegation, add-sign, rejection,
  cancellation, the single place that starts an execution, and the two reconcilers
  (`ApprovalModel`, `ApprovalMeaning`, `ApprovalDesk`, `ApprovalRuns`, `ApprovalPending`).
* **Workflow display.** Topological order of a definition that may have cycles (`TopoOrder`,
  `TopoProperties`), the recursive status aggregate (`StatusAggregate`), and the groups of an
  execution in that order (`ExecutionGroups`, `GroupOrder`, `GroupProperties`).
* **Script versions** under edits, eviction and rollback (`VersionLabels`, `ScriptVersions`,
  `ScriptHistory`), **server assignment** by longest matching subnet (`ServerAssignment`), the
  **category tree** in its three forms (`CategoryTree`, `CategoryDescent`) and **risk grading**
  (`RiskModel`, `RiskMeaning`, `WorkflowRisk`).

`Finite`, `Sorting` and `Wrappers` hold what these share.

Code that updates rows or loops is modelled by methods with loops and, where an object is updated,
by classes. Each is tied twice: to a function of its inputs or of its old state, about which the
promises are proved, and to a statement of what it means, which mentions only fields, literal values
and quantifiers. The two are proved to agree, so neither can be wrong alone.

## Where the code and its promises differ

* A pending approval can already meet its own rule. Someone who may sign only through a role
  approves under OR-sign, which does not count because he is not a candidate, and is then added to
  the candidates by a delegation. `ApprovalPending.OutsiderOverlooked` is the run;
  `ApprovalPending.NeverOverlookedIffNotExposed` shows that this is the only way.
* The status "approved" is listed as a stored status but is never stored: an approval goes from
  pending straight to executing or failed (`ApprovalRuns.SoundThroughout`).
* Recovery (`taurus/views.py:3725-3754`) is meant for work that was handed out and never executed.
  Which installs a recovery heartbeat sends is stated exactly by
  `SupervisorRecovery.RecoverySendsInstallIff`: enabled and uninstalled ones that the daemon is not
  executing and that were stuck or never handed out. An install that was executed and reported as
  failed is neither, so it keeps its dispatch time and stays unsent, through any number of outages,
  until the daemon lists it as executing or detects the program
  (`SupervisorReports.ReportedInstallNotReissued`).
* A report may carry any status, also 0, for a command that already has a result. A command with a
  result is handed out again only after such a report (`SupervisorRuns.FinishedCommandNotReissued`),
  and after such a report a recovery heartbeat does hand it out
  (`SupervisorReports.TakenBackCommandReissued`). With the documented results 2 and 3 it never is
  (`SupervisorRuns.FinalResultsFinal`).
* A log-command result is written to the program command with the same number
  (`taurus/views.py:4059-4069`), so no report ever changes a log command. The model keeps this; the
  theorems hold in spite of it.
* With repeated node keys the indices of the topological order can have gaps; the exact condition
  is `TopoProperties.IndicesContiguousIffTailKeysUnique`, a failing definition is
  `TopoProperties.RepeatedKeyLeavesGap`. The same condition decides whether nodes that the definition
  does not know are placed last (`GroupProperties.KnownBelowUnknownIff`).
* All edges go up in the order exactly when the definition has no cycle
  (`TopoProperties.AllEdgesGoUpIffAcyclic`). For a single edge the exact condition is
  `TopoProperties.EdgeGoesUpIff`: it goes down if and only if both its ends are on or behind a cycle
  and the definition does not have them in that order. `TopoProperties.CycleHasEdgeDown` is a
  two-node definition with such an edge.
* The host shown first under a node need not have the status shown for the node: among skipped and
  successful hosts a skipped one is shown first and the node counts as successful. This is the only
  exception (`GroupProperties.FirstHostShowsOverall`).
* The recursive category descent ends if and only if its start is not on a cycle
  (`CategoryDescent.DescentEndsIffNotOnCycle`).
* With negative weights, server assignment can return nothing although servers are active
  (`ServerAssignment.NegativeWeightUnassigned`); `ServerAssignment.AssignedIff` states exactly when.

## Model

| member | source | states |
|---|---|---|
| SupervisorBackend.Backend.Heartbeat | taurus/views.py:3506-3937 | the phases of a heartbeat over whole tables (two resets, program overlay, sync, executing list, three dispatch loops) give every row the value of its decision table, and the reply holds exactly the work that is due, with program, version, action and target of its row, in the order of the tables; an unapproved host changes nothing |
| SupervisorMeaning.ConfigMeans | taurus/views.py:3575-3837 | the five phases applied to an install config compose to one decision: stays installed, is stuck, is due, is executing |
| SupervisorMeaning.CommandMeans | taurus/views.py:3594-3894 | the same for a program command, held back while its program is missing |
| SupervisorMeaning.ReplyMeans | taurus/views.py:3804-3929 | a dispatch is in the reply iff a row of that kind is due and the dispatch carries what the row says |
| SupervisorMeaning.ReplyOrdered | taurus/views.py:3804-3929 | installs, program commands and log commands follow each other in the order of their tables, none twice |
| SupervisorBackend.Backend.Settle | taurus/views.py:3568-3801 | the phases before dispatching compose to one function of a row, although the tables are scanned four times |
| SupervisorBackend.RunPending | taurus/views.py:3844-3894 | marking all pending commands and unmarking held-back ones while looping gives the final table and the list of commands sent |
| SupervisorBackend.Backend.KeepExecuting | taurus/views.py:3755-3801 | after the loop a row is marked iff some entry of the list names it in an active state |
| SupervisorBackend.Backend.RecordPrograms | taurus/views.py:3665-3704 | the reported names and the program table after overlaying and stopping |
| SupervisorBackend.Backend.ReportCommandResult | taurus/views.py:3940-4084 | exactly when a report is refused, and then nothing changes; otherwise a command gets exactly the reported status, an install is installed iff the status is 2 and no longer in progress, a detection marks the only uninstalled config of that program, and every other row and column is as before |
| SupervisorMeaning.ReportIsMeant | taurus/views.py:3940-4084 | the nested cases of a report agree with that statement for every well-formed state |
| SupervisorBackend.Backend.MarkDetected | taurus/views.py:4000-4026 | a local-detection report marks the single match installed; no match or several change nothing, several are refused |
| SupervisorBackend.Backend.CheckHeartbeatTimeout | taurus/tasks.py:206-234 | exactly the approved online hosts silent for more than 90 seconds go offline, and they are counted; afterwards no host is overdue, the next heartbeat of each of these is a recovery, and all other hosts are as before |
| SupervisorBackend.Backend.Register | taurus/views.py:3214-3318 | refused exactly for an online host; otherwise the host is accepted iff the token says so, its next heartbeat is then a recovery, and no other host changes |
| SupervisorBackend.Backend.Deregister | taurus/views.py:3380-3426 | refused exactly for an unknown host; approval is kept, the next accepted heartbeat of the host is a recovery, and no other host changes |
| SupervisorRuns.BeatHandsOut | taurus/views.py:3804-3929 | a heartbeat hands out exactly the work on offer to that host, each piece exactly once |
| SupervisorRuns.TablesKept | taurus/views.py:3506-4084 | every step keeps primary keys unique and loses no row, which makes the tables of every state of a run well formed |
| SupervisorRuns.InstallHandOutsSeparated | taurus/views.py:3575-3837 | in every run two hand-outs of a config have a release between them: a recovery heartbeat that found it uninstalled and installing, or a local detection |
| SupervisorRuns.InstallLedger | taurus/views.py:3575-4055 | over every run, hand-outs of a config never exceed its releases by more than the mark it holds |
| SupervisorRuns.CommandHandOutsSeparated | taurus/views.py:3594-3894 | in every run two hand-outs of a program command have a recovery between them that found it pending |
| SupervisorRuns.FinishedCommandNotReissued | taurus/views.py:4060-4069 | after a result other than pending a command is not handed out again unless a later report takes the result back |
| SupervisorRuns.FinalResultsFinal | taurus/views.py:4060-4069 | if every report about a command carries a result other than pending, it is never handed out again after the first one |
| SupervisorRuns.LogHandedOutOnce | taurus/views.py:3902-3927 | a log command is handed out at most once in any run |
| SupervisorRecovery.StuckInstallResent | taurus/views.py:3731-3837 | on recovery a stuck, enabled install that is uninstalled, or becomes so in this heartbeat, is sent exactly once unless listed as executing |
| SupervisorRecovery.RecoverySendsInstallIff | taurus/views.py:3725-3837 | of the enabled installs that are uninstalled after the sync, a recovery heartbeat sends exactly those not executing that were stuck or never handed out |
| SupervisorRecovery.StuckCommandResent | taurus/views.py:3743-3894 | on recovery a pending command is sent exactly once unless executing or held back; held-back commands stay pending |
| SupervisorRecovery.OutageRecovered | taurus/tasks.py:206-234 | after the sweep timed a host out, whatever happens in between, refused heartbeats included, its next accepted heartbeat resends every stuck install exactly once unless it is executing |
| SupervisorRecovery.LostInstallResent | taurus/views.py:3568-3837 | an install handed out at any time and never reported on is resent exactly once by a recovery heartbeat unless it is executing |
| SupervisorRecovery.CoupledThroughout | taurus/views.py:3582-4049 | in every run installing implies a dispatch time, and for commands and log commands dispatched holds exactly when the dispatch time is set |
| SupervisorRecovery.Quiescent | taurus/views.py:3565-3934 | repeating a heartbeat hands out nothing and changes nothing but timestamps |
| SupervisorMeaning.ProgramsAfterBeat | taurus/views.py:3665-3704 | a reported program carries the values of the last entry reported under its name, every other program of the host is stopped, other hosts are untouched |
| SupervisorReports.ReportedInstallNotReissued | taurus/views.py:4028-4055 | after a report of success or failure a config is handed out again only once the daemon listed it as executing or detected the program |
| SupervisorReports.SucceededInstallNotReissued | taurus/views.py:3714-3720 | after a success report a config is handed out again only once a heartbeat reported programs without it, or a later report denied it |
| SupervisorReports.DetectsTheOnlyMatch | taurus/views.py:4006-4026 | a detection report changes the one uninstalled config of that program on that host and no other row |
| SupervisorReports.LostCommandResent | taurus/views.py:3594-3894 | a command handed out and never reported on is resent exactly once by a recovery heartbeat unless it is executing |
| SupervisorReports.TakenBackCommandReissued | taurus/views.py:3743-4069 | after a report of status 0 and no later report, a recovery heartbeat hands the command out exactly once unless it is executing or held back |
| ApprovalDesk.Desk.Approve | taurus/views.py:6095-6146 | exactly who is admitted; an admitted request adds exactly one approve record, and then, if the rule holds, starts and links one execution when the quota allows and the host is online, and fails otherwise; if it does not hold the approval stays pending |
| ApprovalDesk.Desk.ApprovedByMode | taurus/views.py:6078-6091 | AND-sign: every candidate has an approve record; OR-sign: some candidate has; without candidates: anybody has |
| ApprovalMeaning.EntitledMeans | taurus/views.py:6045-6076 | who may sign: candidates by id, holders of a candidate role, and the named approver if nobody is listed by id |
| ApprovalMeaning.RuleMeans | taurus/views.py:6078-6091 | the rule over sets of ids agrees with the rule over candidates and records |
| ApprovalDesk.Desk.Reject | taurus/views.py:6149-6193 | exactly who may reject; a rejection adds one record, no signature and is final for every later request; of the executions only the linked one changes, to state 6 |
| ApprovalDesk.Desk.Delegate | taurus/views.py:6197-6239 | exactly who may delegate; the delegate is appended unless listed by id, one record is added, and nobody gains a signature |
| ApprovalDesk.Desk.AddSign | taurus/views.py:6242-6281 | exactly who may ask; the users found who were not listed by id are appended, each once, one record is added, and nobody gains a signature |
| ApprovalDesk.Desk.Cancel | taurus/views.py:6284-6296 | accepted iff the approval was pending and the user is the submitter or a superuser; nothing but the status changes, and no later request changes anything |
| ApprovalDesk.Desk.ExecutionSaved | taurus/models.py:2038-2056 | an executing approval linked to a script execution becomes completed for state 2 and failed for state 3, and nothing else changes; saving makes an approval stale only for executions that are not scripts |
| ApprovalDesk.Desk.SyncStale | taurus/views.py:6424-6441 | an executing approval whose execution is in state 2 or 3 becomes completed or failed; it is then not stale, and nothing else changes |
| ApprovalRuns.SoundThroughout | taurus/views.py:6095-6296 | in every run each user has at most one approve record, a reject record is unique and last and present iff rejected, "approved" is never stored, executing approvals are linked |
| ApprovalRuns.SoundStep | taurus/views.py:6095-6441 | stored statuses move only from pending to rejected, cancelled, executing or failed, and from executing to completed or failed |
| ApprovalRuns.OnlyGrows | taurus/views.py:6108-6280 | over any stretch of a run records are append-only and candidates only grow |
| ApprovalRuns.TriggersAtMostOnce | taurus/views.py:6328-6407 | a run starts at most one execution, none while pending, rejected or cancelled, and creates no other execution |
| ApprovalRuns.AllCandidatesApproved | taurus/views.py:6087-6088 | under AND-sign, when an execution starts, everyone who was ever a candidate is named and has an approve record |
| ApprovalRuns.SomeoneEntitledApproved | taurus/views.py:6083-6091 | when an execution starts some candidate, or without candidates the named approver, has an approve record |
| ApprovalPending.NeverOverlookedIffNotExposed | taurus/views.py:6044-6142 | no run leaves an approval pending with its rule met, iff at creation nobody could sign by role alone under OR-sign with all candidates named |
| ApprovalPending.OutsiderOverlooked | taurus/views.py:6219-6225 | the two-step run that leaves an exposed approval pending with its rule met |
| ApprovalPending.DelegationOverlooks | taurus/views.py:6218-6238 | a delegation makes the rule hold unnoticed exactly under OR-sign, towards someone who already signed |
| TopoOrder.TopoIndex | taurus/serializers.py:416-456 | the queue loop ends and orders exactly the nodes not on or behind a cycle: the sources in definition order, then what each node frees in the order of its last edges, so predecessors come first and first in is first out; the rest follows in definition order; the last index of a repeated key counts |
| TopoOrder.Drain | taurus/serializers.py:441-451 | the queue orders a node iff it is not on or downstream of a cycle, in the order in which the nodes are freed |
| TopoOrder.Release | taurus/serializers.py:444-450 | releasing the edges of one node keeps the in-degrees equal to the edges still waiting and queues exactly the nodes whose last predecessor it was, in the order of their last edges |
| TopoOrder.LeftOverBehindCycle | taurus/serializers.py:452-454 | a node the queue never reaches is on or downstream of a cycle |
| TopoProperties.TopologicalUnique | taurus/serializers.py:416-456 | nodes, edges and their order determine the index of every node |
| TopoProperties.DistinctKeysGiveBijection | taurus/serializers.py:456 | with distinct keys the index is a bijection onto 0..n-1 |
| TopoProperties.IndicesContiguousIffTailKeysUnique | taurus/serializers.py:452-456 | with any keys, the index is a bijection onto an initial segment iff no tail key is repeated |
| TopoProperties.EdgesGoUp | taurus/serializers.py:444-456 | an edge goes from a lower to a higher index unless both ends are on or behind a cycle |
| TopoProperties.AllEdgesGoUpIffAcyclic | taurus/serializers.py:441-456 | every edge goes from a lower to a higher index iff the definition has no cycle |
| TopoProperties.EdgeGoesUpIff | taurus/serializers.py:444-456 | an edge goes up iff one of its ends is not on or behind a cycle, or its source stands before its target in the definition |
| TopoProperties.TailComesLast | taurus/serializers.py:452-454 | nodes on or behind a cycle come after all others |
| TopoProperties.TailKeepsDefinitionOrder | taurus/serializers.py:452-456 | nodes on or behind a cycle keep the order of the definition, in which a repeated key stands where it occurs last |
| TopoProperties.CycleHasEdgeDown | taurus/serializers.py:452-454 | witness for the two conditions above: the two-node cycle has an edge that goes down |
| StatusAggregate.AggregateIsMostCritical | taurus/serializers.py:651-674 | the recursive rule ends and gives the most critical of the known statuses, however sets are iterated |
| StatusAggregate.AggregateIsMember | taurus/serializers.py:651-674 | of any statuses, unknown ones included, the aggregate is one of them |
| StatusAggregate.AggregateOfUnion | taurus/serializers.py:651-674 | the aggregate of a union is the join of the aggregates |
| StatusAggregate.AggregateTable | taurus/serializers.py:651-674 | the recursive rule as a table: 3 before 1 before 0 before 5 before 2 before 4 |
| ExecutionGroups.LatestAttempts | taurus/serializers.py:624-629 | for each node and host with rows, the first row whose attempt number no row of the pair exceeds, zero standing for 1; pairs in the order in which they are first met |
| ExecutionGroups.ByNode | taurus/serializers.py:631-633 | the groups are the latest rows of each node, none empty |
| ExecutionGroups.SizesAddUp | taurus/serializers.py:631-633 | group sizes add up to the number of distinct node and host pairs |
| ExecutionGroups.Summarize | taurus/serializers.py:682-773 | type and name; how many rows have each status and how many have ended; the aggregate; greatest attempt, earliest start, latest finish and total duration with their limits; the rows stably sorted |
| ExecutionGroups.HostsStand | taurus/serializers.py:746-751 | hosts stand by status (failed, running, pending, cancelled, skipped, success, others) and then by the text shown for them |
| Sorting.StableSortUnique | taurus/serializers.py:746-751 | a sequence has only one stable sort, so the order of the hosts is determined |
| ExecutionGroups.CountsAddUp | taurus/serializers.py:683-695 | the six counts add up to the group size iff every status is a known one |
| GroupOrder.NodeExecutionGroups | taurus/serializers.py:607-779 | one group for every node with rows, each summing up its latest rows, sorted by index then key, sizes adding up to the number of pairs |
| GroupOrder.SortGroups | taurus/serializers.py:775-778 | sorting keeps the groups and gives the key order |
| GroupOrder.GroupsUnique | taurus/serializers.py:607-779 | definition, rows and host names determine the whole list of groups |
| GroupProperties.PredecessorGroupFirst | taurus/serializers.py:775-778 | a node's group precedes the groups of its successors unless both are on or behind a cycle |
| GroupProperties.KnownBelowUnknownIff | taurus/serializers.py:645-646 | the nodes of the definition are all placed below a node missing from it iff no key of the cyclic tail is repeated |
| GroupProperties.UnknownNodesLast | taurus/serializers.py:775-778 | then groups of nodes missing from the definition come last |
| GroupProperties.GroupsStand | taurus/serializers.py:775-778 | groups of the definition stand by index, unknown ones among themselves by key |
| GroupProperties.GroupSizeIsHostCount | taurus/serializers.py:750-752 | the size of a group is the number of different hosts with rows for the node |
| GroupProperties.AttemptsMaxOverAllRows | taurus/serializers.py:696-698 | the greatest attempt of a group is at least 1 and the greatest over all rows of the node, discarded ones included, zero standing for 1 |
| GroupProperties.OverallIsMostCriticalLatest | taurus/serializers.py:749-761 | the status of a node is that of one of its latest rows and none of them is more critical |
| GroupProperties.FirstHostShowsOverall | taurus/serializers.py:746-761 | for known statuses, the host shown first has the status of the group unless they are just skipped and successful |
| VersionLabels.LabelReadsBack | taurus/views.py:7038-7045 | reading a label back gives the number it was written for |
| ScriptVersions.ScriptRecord.PerformUpdate | taurus/views.py:6997-7054 | refused exactly while approval is pending for a request with content, or by another rule; new content becomes the one current version, under the label after the greatest number that stays, and the versions that stay are the others not evicted, retired |
| ScriptVersions.ScriptRecord.RollbackVersion | taurus/views.py:7349-7382 | refused exactly while approval is pending or for an unknown version; otherwise the content of that version is added as the current version, all others stay and are retired |
| ScriptVersions.ScriptRecord.NextLabel | taurus/views.py:7034-7045 | "V", one more than the greatest number in use, ".0"; unreadable labels are skipped and numbering starts at 1 |
| ScriptHistory.ConsistentThroughout | taurus/views.py:6980-7382 | in every run the history is numbered without gaps, the script is its last entry, and every kept version is an unchanged entry of it |
| ScriptHistory.OneCurrentVersion | taurus/views.py:7029-7054 | exactly one version is current, with the script's label and content and the strictly greatest number |
| ScriptHistory.LabelsNeverReused | taurus/views.py:7034-7045 | no label is used twice in the life of a script, evicted versions included |
| ScriptHistory.RollbackRestores | taurus/views.py:7357-7382 | an accepted rollback restores the content recorded with the version's label |
| ScriptHistory.EditThenRollback | taurus/views.py:7024-7382 | after an edit, with any eviction, rolling back to the version current before brings the old content back |
| ServerAssignment.AssignForHost | taurus/models.py:238-292 | longest matching prefix, then least load, then query order; otherwise the first maximiser of weight times free capacity in the fallback pool; nothing iff no pool score exceeds -1 |
| ServerAssignment.AssignmentUnique | taurus/models.py:238-292 | servers and address determine the choice |
| ServerAssignment.NetworkIsInterval | taurus/models.py:259-266 | a network holds exactly the addresses of its version in one block of 2 to the number of host bits (32 or 128 less the prefix) |
| ServerAssignment.ScoreMeans | taurus/models.py:232-236 | load is the used share of the connections, at most 1; the score is the weight times the free share |
| ServerAssignment.LongerPrefixIsInside | taurus/models.py:263-269 | of two networks containing an address the one with the longer prefix lies inside the other |
| ServerAssignment.AssignedNetworkMostSpecific | taurus/models.py:271-274 | the assigned network lies inside every other matching network |
| ServerAssignment.AssignedIff | taurus/models.py:252-292 | whatever the weights, a server is assigned iff some network matches or some pool score exceeds -1 |
| ServerAssignment.AssignedIffAnyActive | taurus/models.py:252-292 | with non-negative weights a server is assigned iff one is active |
| CategoryTree.Closure | taurus/views.py:9003-9015 | the fixpoint loop ends on every table, cyclic ones included, and gives exactly the categories at or below the given ones |
| CategoryTree.IsUnder | taurus/views.py:6594-6606 | the walk up ends and answers whether the category is at or below a goal, that is, in the closure of the goals |
| CategoryDescent.DescentEndsIffNotOnCycle | taurus/views.py:196-202 | the recursive descent ends iff its category is not on a cycle |
| CategoryDescent.DescentAgreesWithClosure | taurus/views.py:196-202 | a finished descent lists the members of the closure, each once |
| CategoryDescent.DescentInOrder | taurus/views.py:196-202 | the descent lists its category first and every other one after its parent |
| CategoryDescent.SiblingsInOrder | taurus/views.py:196-202 | children of a listed category are listed in the order of the table |
| WorkflowRisk.Evaluate | taurus/views.py:220-413 | the points returned are exactly those that hosts, environment, nodes, steps, edges and approver give rise to, each once and in the order of first occurrence; high iff two of them are high, or one is and two are warnings; low iff none is high, fewer than two are warnings and there are fewer than three |
| RiskMeaning.PointsMean | taurus/views.py:220-391 | for every part of a workflow, which point it gives rise to, with thresholds, tags and texts |
| RiskMeaning.PointsInPartOrder | taurus/views.py:220-400 | the points returned stand in the order of the parts that first give rise to them: hosts, environment, nodes, steps, edges, approver |
| RiskMeaning.LevelMeans | taurus/views.py:402-412 | the level read off the counts agrees with the two conditions for high and low |
| WorkflowRisk.RiskMonotone | taurus/views.py:220-413 | adding nodes, steps, edges or hosts, anywhere and in any number, never lowers the level |
| WorkflowRisk.MoreSeriousPoint | taurus/views.py:245-250 | swapping a tip for a warning or a warning for a high point does not lower the level |

## Left out

* HTTP, serializer validation, permissions, signatures and tokens; each handler is one atomic step, and database races are not modelled. `Register` takes the row that the address lookup chose; refusals by token, whitelist or quota are not modelled.
* Direct edits of protocol columns, deletion of rows, and the enterprise redispatch and policy actions; creating rows, enabling and disabling a config and changing a host's status are steps of a run.
* The order of work inside a reply follows the order of the table; the sort by program name is not modelled.
* Report fields that only describe (result message, execution time, heartbeat metrics, user name and host name) are not modelled; the program name in a detection message is a parameter.
* A command id is any integer; a negative one names no row.
* Approvals: an execution type is given without surrounding blanks. The guards of the trigger (quota, host online) are one parameter; the parameters copied to the execution are not modelled. A candidate entry that is not an object is not modelled.
* Edges are taken as resolved pairs of keys: the code that orders and the code that publishes read the key aliases in different orders.
* Groups: a host entry is represented by its row, and the name shown for a found host is a parameter; the fields copied into an entry (exit code, output, error, times) are not modelled. The sort of rows by time before grouping is not modelled; the results hold for rows in any order. Comparing aware with naive timestamps is not modelled.
* Scripts: the script-version endpoint (`taurus/views.py:8109-8124`, routed at `taurus/urls.py:98`) creates versions directly, with any label and a writable current flag; its versions are not part of a run here, so `ScriptHistory` holds for scripts changed through edits and rollbacks only. Official-script import, whose lower-case labels the number parser skips; approval of scripts is a step that sets the status. Label numbers are read as plain digits, which covers every label that is ever written.
* Server load and scores are exact reals; rounding is not modelled.
* Risk: text is lowered by ASCII letters only; whether an approver is missing for the category, and the level of a step's script, are given. Points are compared as values, which are equal exactly when their texts are.
* Host-output merging and paging, statistics, visibility filters, and the workflow engine, whose code is not part of this model.
