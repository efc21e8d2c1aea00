# WardNode background components, modelled in Dafny

WardNode is a console for a web application firewall. Around its web shell run several background components that
keep promises over long runs, through crashes and against hostile data. This project models those components and
proves the promises. Each module follows one source file or one concern; code that changes state step by step is a
class or a method with loops, proved equal to a function of the old state, and the promises are then lemmas about
that function, over all inputs and all runs.

| module | what it models |
|---|---|
| `SyslogWorker` | the forwarder's cursor protocol over two append-only tables, with send errors and process death at every step |
| `Utf8`, `Decimal`, `Clock`, `PyText` | UTF-8 with `decode("utf-8", "ignore")` (section 3 of RFC 3629), decimal numerals, timestamps, `strip`, `split`, `join` |
| `SyslogFrame`, `OctetCounting`, `Redaction` | RFC 5424 frames with the byte cut of the body, octet counting (section 3.4.1 of RFC 6587) over a failing connection, header redaction and what is sent of a stored record |
| `RawLog` | what the ingest thread stores: `json.dumps`, the byte cap with its envelope, dedupe by transaction |
| `RawLogArchive` | archive-then-prune of the raw log |
| `HostFirewall` | the host agent's first-match rule chain, its marker file and the rebuild after a restart, with every call failing in every way |
| `SocDetect`, `SocIncidents`, `SocResponse`, `SocRuns` | the incident engine: thresholds, dedupe-or-create, alerts, automatic blocks, whole runs |
| `BackupSchedule` | the scheduled backup under an advisory lock, N workers interleaved step by step |
| `Retention`, `BackupZip` | backup names and retention; the archive's creation, validation and extraction |
| `LikeFilter`, `CustomRules`, `RuleValidation` | SQL LIKE escaping; ModSecurity statement parsing against rendering; the checks a rule passes before it is stored |
| `Json`, `Salvage` | JSON texts (RFC 8259) as concrete syntax trees, and the salvage of truncated model output |
| `Wrappers` | `Option`, bounds, regrouping of sequences |

`dafny verify dfyconfig.toml` checks everything.

Conventions. Whatever the program cannot decide itself is an input of the step: where a network send fails, where the
process dies, what a guard or a foreign service answers, what a directory or query listing returns (constrained to be
a listing). Recorded state is committed state. Fields or state components called history (`start`, `bad`, `persisted`,
`log`) are read by no step; they exist so that a statement can speak about the past.

Assumptions, made in the statements that need them or by what counts as one step:

- row ids become visible in increasing order, with gaps;
- a row has reached the collector when `send` returned for it; whether the network delivers it is not known to the code;
- forwarding ticks are serialised by their advisory lock, and detection cycles by theirs; a lock is held until its owner
  releases it or dies;
- reviews and retroactive enrichments do not fall inside a detection cycle. `SocRuns.ReviewsInFlight` says what reviews
  inside a candidate's turn do, and `SocIncidents.LateEnrichmentKeepsIff` when an enrichment that overlaps one is harmless;
- the clock does not go back between detection cycles;
- no row of the raw log takes longer from its time stamp to its commit than the retention (`RawLogArchive.Safe`);
- two archives are not named in the same second (`RawLogArchive.Safe`), nor two backups (`Retention.Ascending`);
- the policy and restart theorems of `HostFirewall` (`ChainInvariant`, `ReachableMeansPolicy`, `RestoreMeansPolicy`,
  `RestartKeepsVerdicts`, `AgentRestartKeepsVerdicts`) are about commands whose calls succeed. The commands and the
  restore loop themselves take every failure as input: deletions refused or timed out with the rule still there,
  insertions refused or timed out before or after the rule went in, the check, a marker read that raises, and a marker
  write that fails before it opens the file or tears it.

Some promises of the source hold only under a condition. There the code is kept as it is, a concrete failing input is
given, and the condition is proved exact:

- the cap on a stored record, which the comment at app/proxy/ingest.py:254-256 claims unconditionally:
  `RawLog.StoredBytes`, failing in `CapIsExceeded`. That a record over the cap is not stored whole has one exception,
  `OwnDumpIff`, of which `OwnEnvelope` gives an instance;
- salvage of a cut reply: `Salvage.SalvageAgreesIff`, failing in `LookAlikeKeyWins` and in `EscapedKeyIsLost`;
- one unreviewed incident per hour: `SocRuns.ReopeningDedupesIff`, failing in `ReopeningBreaksDedupe`;
- archive before delete: `RawLogArchive.ArchivedBeforeDeletedIff`, failing in `ShortRetentionLoses`. The settings form
  stores positive retentions only (app/proxy/routes.py:1757-1764), so the failing side needs a setting written by other
  means or a row that takes a day to commit; `FormGuardIsExact` says that the form draws the line in the right place;
- rendering keeps statements: `CustomRules.RenderingPreservesStatementsIff`, failing in
  `RuleValidation.AcceptedRulesRunOn` on two rules that validation accepts;
- one backup a day: `BackupSchedule.SafeIffLockedOrAlone`, failing in `RaceBreaksIt` without the lock and in
  `QueuedRaceBreaksIt` without the second check;
- a protected port stays protected: `HostFirewall.ProtectionSurvivesRestartIff`, failing in `TornWriteForgets` and in
  `UnreadableMarkerForgets`;
- the backup just written is kept: `Retention.JustWrittenSurvives`, failing in `SetBackClockLosesIt`;
- redaction hides sensitive headers from the collector: `Redaction.SentHidesIff`, failing in `LongCookieIsSent`
  and in `DeepCookieIsSent`.

## Model

| member | source | states |
|---|---|---|
| SyslogWorker.AtLeastOnce | app/proxy/syslog_worker.py:120-192 | for every interleaving of inserts and ticks with send errors and deaths at any row: every row after the bootstrap and up to the cursor reached the collector, first occurrences in the send log are an unbroken ascending run of rows, and no row is sent more than once plus once per faulty tick |
| SyslogWorker.CursorNeverDecreases | app/proxy/syslog_worker.py:45-72 | between any two points of a run the cursor neither disappears nor goes back |
| SyslogWorker.PhaseStep | app/proxy/syslog_worker.py:134-162 | one source in one tick keeps the delivery invariant and counts exactly the rows its cursor passes |
| SyslogWorker.TickTelemetry | app/proxy/syslog_worker.py:194-204 | a tick that ends normally adds to sent_total exactly the rows both cursors passed by forwarding; no tick ever adds more |
| SyslogWorker.TickForwards | app/proxy/syslog_worker.py:120-192 | what one tick does, by row position: each source that is on sends its next rows, at most 500, in order, all of them and the cursor behind them when nothing fails, else the first k and the cursor where it was; the audit source also after a network error of the other |
| SyslogWorker.TickReports | app/proxy/syslog_worker.py:164-204 | the rows a tick adds to sent_total, and its last_error: empty exactly when no source with rows to send met a network error, the audit error winning; nothing is added when it dies first |
| SyslogWorker.TelemetryConservation | app/proxy/syslog_worker.py:194-204 | over any run sent_total never exceeds the rows passed, and equals them when no tick died before its total was committed |
| SyslogWorker.NormalPhaseDrains | app/proxy/syslog_worker.py:142-157 | an error-free phase lowers the backlog by exactly min(500, backlog) |
| SyslogWorker.DrainsInCeilTicks | app/proxy/syslog_worker.py:120-192 | over runs of ticks that serve a source without an error of its own, whatever network errors the other source meets, its n pending rows are gone after ceil(n/500) ticks and not one tick earlier |
| SyslogWorker.SkippedRowsAreNeverSent | app/proxy/syslog_worker.py:45-72 | after an unreadable cursor is answered by the bootstrap to MAX(id), no row then in the table is ever sent, whatever the rest of the run brings |
| SyslogWorker.Worker.ForwardSource | app/proxy/syslog_worker.py:134-162 | the query, send loop and cursor update of one source compute the phase the theorems are about |
| SyslogWorker.Worker.Tick | app/proxy/syslog_worker.py:120-204 | a tick leaves cursors, send log, sent_total and last_error as the specification says, for every failure point |
| Utf8.CutThenDecode | app/proxy/syslog_forwarder.py:107-111 | cutting an encoding at any byte and decoding with "ignore" gives the longest prefix of characters that fits |
| Utf8.FittingIsLongest | app/proxy/syslog_forwarder.py:107-111 | that prefix fits, no longer one does, and at most 3 bytes are wasted |
| Utf8.CutIsExact | app/proxy/ingest.py:263-265 | the cut keeps every prefix that fits and is itself one |
| SyslogFrame.BodyIsExact | app/proxy/syslog_forwarder.py:106-112 | a body that fits is unchanged; a longer one is its longest prefix within 8192 bytes plus the marker; never over 8204 bytes, always one line |
| SyslogFrame.FrameRoundTrip | app/proxy/syslog_forwarder.py:84-112 | splitting any frame at its first seven spaces gives back the sanitised header fields and the body |
| SyslogFrame.CollectorReads | app/proxy/syslog_forwarder.py:84-112 | field by field, a collector reads the priority, the time, host, application, process id and message id in their places, each the argument with underscores for spaces, cut at 255, 48, 128 and 32 characters |
| SyslogFrame.RowFrameReads | app/proxy/syslog_worker.py:75-115 | from the worker's frames it reads this program as host and application, the row's id and its kind |
| SyslogFrame.SanitizeIs | app/proxy/syslog_forwarder.py:104-106 | a NUL goes and a line break character becomes a space |
| Clock.FormatsRead | app/proxy/syslog_forwarder.py:101 | both time formats read back, field by field |
| SyslogFrame.RenderParses | app/proxy/syslog_forwarder.py:112 | any space-free header and any body come back from the frame |
| SyslogFrame.PriRoundTrip | app/proxy/syslog_forwarder.py:100 | facility and severity are recovered from PRI |
| SyslogFrame.RowFrameIsOneLine | app/proxy/syslog_worker.py:75-115 | the worker's frames contain no line break or NUL, whatever was logged |
| Redaction.RedactEqualIff | app/proxy/syslog_forwarder.py:147-156 | two parsed records redact to the same thing exactly when they agree everywhere outside the values of sensitive keys |
| Redaction.SentIs | app/proxy/syslog_forwarder.py:159-173 | of a record within the cap and the interpreter's nesting limit the redacted record is sent, no sensitive value in it; one nested deeper is sent as it is; of one over the cap the stored head is sent verbatim |
| Redaction.SentHidesIff | app/proxy/syslog_forwarder.py:159-173 | records that agree outside sensitive values are sent identically exactly when they are the same, or both are within the cap and the nesting limit, or both are over the cap with equal stored heads |
| Redaction.LongCookieIsSent | app/proxy/syslog_forwarder.py:159-173 | two records that differ only in a cookie of 70000 characters are sent differently |
| Redaction.DeepCookieIsSent | app/proxy/syslog_forwarder.py:166-173 | two records within the cap, nested one level past the limit, that differ only in a cookie are sent differently |
| Redaction.RedactCleans | app/proxy/syslog_forwarder.py:147-156 | at every depth a sensitive key keeps only the mark, and nothing else changes |
| Redaction.SixHeadersAreRedacted | app/proxy/syslog_forwarder.py:141-156 | the six header names, in any case, and no others lose their values |
| Redaction.CleanIsFixed | app/proxy/syslog_forwarder.py:147-156 | redaction leaves a record alone exactly when it is already clean |
| Redaction.RedactTwice | app/proxy/syslog_forwarder.py:147-156 | redacting twice is redacting once |
| OctetCounting.ReceiveAll | app/proxy/syslog_forwarder.py:277-287 | decoding the concatenation of any sent frames yields exactly those frames |
| OctetCounting.ReceivePrefix | app/proxy/syslog_forwarder.py:277-287 | a stream cut after any byte yields exactly the frames it carried whole, never a wrong one |
| OctetCounting.FrameOnTheWire | app/proxy/syslog_forwarder.py:277-287 | a frame is the digits of its length in bytes, a space, and its bytes |
| OctetCounting.Sender.Send | app/proxy/syslog_forwarder.py:252-290 | one send adds the frame to what the collector decodes, or on failure closes the socket and adds nothing, or the frame when all its bytes had left |
| RawLog.StoredBytes | app/proxy/ingest.py:254-266 | a record within the cap is stored as it is; a truncated one takes 33 bytes plus its head plus one per quote or backslash, is within the cap iff head and escapes are at most 65503, and never exceeds 130977 |
| RawLog.CapIsExceeded | app/proxy/ingest.py:254-266 | a record of 40000 quotation marks is stored in 130973 bytes |
| RawLog.StoredReadsBack | app/proxy/ingest.py:257-266 | reading a stored record back gives the record, or the marker and the longest prefix of its text within 65472 bytes |
| RawLog.RowsDescribeArrivals | app/proxy/ingest.py:230-282 | over any run of arrivals each row carries its arrival's own id, address, rule and a text that stands for its record - one line of at most 130977 bytes, the dump itself within 65536 bytes and else the marker with the longest prefix within 65472 - and rows come from exactly the first stored arrivals, in order |
| RawLog.ColumnsOf | app/proxy/ingest.py:237-245 | where the id and rule columns come from, with their fallbacks |
| RawLog.OwnDumpIff | app/proxy/ingest.py:257-266 | a record is stored as its own dump exactly when that is within 65536 bytes, or the record is the envelope of its own head |
| RawLog.OwnEnvelope | app/proxy/ingest.py:257-266 | there is a record of the second kind |
| RawLog.LoadsDumps | app/proxy/ingest.py:257 | json.loads undoes json.dumps |
| RawLog.DecodePieces | app/proxy/ingest.py:266 | a written string literal reads back as the same code points |
| RawLog.StoredTextIsOneLine | app/proxy/ingest.py:257-266 | a stored text is not empty and holds no newline or other control character |
| RawLog.FirstWriterWins | app/proxy/ingest.py:268-282 | over any run of arrivals with failing commits the table holds exactly the first stored record of every transaction, in order, and every record without an id |
| RawLog.Table.Store | app/proxy/ingest.py:230-282 | one arrival changes the table as the run function says, with its id, address, rule and text columns, and keeps transaction ids unique |
| RawLogArchive.NothingIsLost | app/proxy/rawlog_service.py:76-166 | while backup-before-prune stays on, every row ever stored is live or a line of an archive, after any inserts and prunes failing or dying anywhere, rows in flight at a job's start included |
| RawLogArchive.CopiesAreConserved | app/proxy/rawlog_service.py:76-166 | and none twice over: over such a run the live and archived copies of every text number exactly those at the start, plus those stored, plus those archived by jobs that died or failed before their delete |
| RawLogArchive.PruneAccounts | app/proxy/rawlog_service.py:80-166 | rows present or arriving during a job equal rows live plus rows deleted; deleted rows are older than the cutoff and, with backup on, those the query saw were archived first |
| RawLogArchive.JobDoes | app/proxy/rawlog_service.py:62-202 | one job, from its configuration and failure point: nothing without a needed password or archive; else the archive named after its second, the rows created since now minus d days, 30 by default, and no others left, in order, and the stamp |
| RawLogArchive.ArchivedBeforeDeletedIff | app/proxy/rawlog_service.py:71-166 | with backup on, a job that deletes archives every row it deletes, whatever rows that take up to a given lag to commit become visible between its query and its delete, exactly when the configured retention is at least that lag |
| RawLogArchive.FormGuardIsExact | app/proxy/routes.py:1757-1764 | for any lag of up to a day that holds exactly for the retentions the form accepts |
| RawLogArchive.ShortRetentionLoses | app/proxy/rawlog_service.py:71-76 | under any retention of zero or less, none of which the form accepts, a row stamped a microsecond before the job and committed during it is deleted with no archive written |
| RawLogArchive.ArchiveSplitsBack | app/proxy/rawlog_service.py:109-125 | splitting an archive at newlines gives the archived rows' JSON texts in order, each readable |
| RawLogArchive.OnlyOldRowsLeave | app/proxy/rawlog_service.py:158-166 | over any run a row leaves the table only by a job whose cutoff it was older than |
| RawLogArchive.RawLogJob.PruneAndArchive | app/proxy/rawlog_service.py:62-202 | the job's new state, and its reported counts, archive name, skip and error, for every failure point |
| HostFirewall.ChainInvariant | host-agent/wardnode-wf-agent.py:114-173 | over all command runs the chain is one ACCEPT/DROP pair per marker port, ACCEPT first, then the foreign rules in their exact order |
| HostFirewall.RuleCounts | host-agent/wardnode-wf-agent.py:114-173 | after any run a port has exactly one ACCEPT and one DROP when the marker holds it and none otherwise, and every foreign rule is there as often as before |
| HostFirewall.CommandsTakeEffect | host-agent/wardnode-wf-agent.py:410-422 | with every call succeeding, protect refuses 22, 80, 443, 5000 and ports outside 1 to 65535 without any change, and protects, records and enforces every other port; unprotect takes any port out of the marker |
| HostFirewall.MarkerAfterRun | host-agent/wardnode-wf-agent.py:410-422 | after any run the marker holds exactly the ports whose last effective command is a protect, and those it held that were not taken out; so never a reserved one |
| HostFirewall.CommandsDecideVerdicts | host-agent/wardnode-wf-agent.py:114-173 | from the commands alone: over any run a packet to a port that ends protected is let in from loopback and dropped from outside 172.16.0.0/12, and every other packet fares as without the agent |
| HostFirewall.TenOfEachGo | host-agent/wardnode-wf-agent.py:118-127 | from any chain unprotect takes out up to ten rules of each kind and reports how many, the others staying in order; protect puts a pair on top of the same |
| HostFirewall.HaltedUnprotect | host-agent/wardnode-wf-agent.py:156-173 | a refused deletion ends its own loop only, a timeout the whole command with nothing recorded |
| HostFirewall.TimedOutUnprotect | host-agent/wardnode-wf-agent.py:156-173 | what a deletion that timed out leaves in the chain |
| HostFirewall.FailedInsertionsShow | host-agent/wardnode-wf-agent.py:129-140 | what is left, recorded and answered when an insertion fails: never a marker entry, and after the second one a port closed to loopback too |
| HostFirewall.CheckDecidesReply | host-agent/wardnode-wf-agent.py:241-248 | the final check changes the answer only |
| HostFirewall.ReachableMeansPolicy | host-agent/wardnode-wf-agent.py:128-137 | in every reachable state each packet's first-match verdict is the one the policy of protected ports prescribes |
| HostFirewall.RestoreMeansPolicy | host-agent/wardnode-wf-agent.py:176-187 | after a flush and a restore from any marker, in any listing order, every packet gets the policy's verdict |
| HostFirewall.RestartKeepsVerdicts | host-agent/wardnode-wf-agent.py:176-187 | no packet can tell a restarted host from one never restarted |
| HostFirewall.AgentRestartKeepsVerdicts | host-agent/wardnode-wf-agent.py:176-187 | nor one whose agent restarted with the rules still in place |
| HostFirewall.ProtectIdempotent | host-agent/wardnode-wf-agent.py:118-143 | protecting twice is protecting once |
| HostFirewall.UnprotectUndoesProtect | host-agent/wardnode-wf-agent.py:156-173 | unprotecting a freshly protected port restores the identical chain and marker |
| HostFirewall.OtherPacketsUnaffected | host-agent/wardnode-wf-agent.py:114-173 | from any chain and whichever calls fail, deletions included, a command for one port changes no verdict for another port or protocol |
| HostFirewall.ProtectedIsEnforced | host-agent/wardnode-wf-agent.py:114-153 | from any chain and whichever deletions fail, a port answered as protected lets loopback in and drops what is neither loopback nor Docker |
| HostFirewall.FailingRestoreProtects | host-agent/wardnode-wf-agent.py:176-187 | a restore in which calls fail still enforces every port whose own turn came and was answered as protected |
| HostFirewall.ProtectionSurvivesRestartIff | host-agent/wardnode-wf-agent.py:96-143 | whichever calls fail, a port answered as protected is blocked after a restart iff the marker write succeeded, or left the file alone and the marker already held it; every other protected port stays so iff the write left the file alone, or both the marker read and the write succeeded |
| HostFirewall.UnprotectionSurvivesRestartIff | host-agent/wardnode-wf-agent.py:96-173 | an unprotected port stays open after a restart iff the marker write succeeded or was torn, or the marker did not hold it; the other ports as above |
| HostFirewall.TornWriteForgets | host-agent/wardnode-wf-agent.py:105-143 | a protected port is protected again with a write that tears the marker: the reply is a verified block, and after a restart the port is open |
| HostFirewall.UnreadableMarkerForgets | host-agent/wardnode-wf-agent.py:96-143 | a second port is protected while the marker cannot be read: the reply is a verified block, and after a restart the first port is open |
| HostFirewall.TornMarkerDoesNotLoad | host-agent/wardnode-wf-agent.py:96-111 | no proper prefix of the marker's JSON, the empty file included, is a JSON document, so a torn marker reads as no ports |
| HostFirewall.DockerCidrIsRange | host-agent/wardnode-wf-agent.py:121-131 | the /12 test is the range 172.16.0.0 to 172.31.255.255 |
| HostFirewall.Agent.DeleteLoop | host-agent/wardnode-wf-agent.py:123-127 | the bounded delete loop removes the first equal rules, at most ten, up to the first deletion that is refused or times out though its rule is there, and reports how many |
| HostFirewall.Agent.LoadMarker | host-agent/wardnode-wf-agent.py:96-102 | a read gives the marker, or no ports when it raises |
| HostFirewall.Agent.SaveMarker | host-agent/wardnode-wf-agent.py:105-111 | a write saves the new marker, leaves the old one, or leaves a file that reads as empty |
| HostFirewall.Agent.ProtectHostPort | host-agent/wardnode-wf-agent.py:114-153 | the new chain, marker and reply for every combination of failing calls |
| HostFirewall.Agent.UnprotectHostPort | host-agent/wardnode-wf-agent.py:156-173 | likewise for unprotect |
| HostFirewall.Agent.HandleCommand | host-agent/wardnode-wf-agent.py:410-422 | invalid and reserved ports are refused without change, the rest is dispatched |
| HostFirewall.Agent.RestoreProtectedPorts | host-agent/wardnode-wf-agent.py:176-187 | the start-up loop over the marker's entries computes the restore the theorems are about, for every failing call of every entry |
| SocDetect.Resolve | app/soc/detect.py:105-121 | whatever is configured, thresholds come out ordered medium < high < critical within 1 to 100 |
| SocDetect.SeverityUnderSettings | app/soc/detect.py:105-142 | the severity of a score under any stored settings: thresholds as configured when usable, 80, 60 and 40 otherwise |
| SocDetect.ScaleIs | app/soc/detect.py:17 | the order of severities, and high for an unknown minimum |
| SocDetect.SeverityOfMax | app/soc/detect.py:124-142 | severity is monotone in the score, so the severity of a maximum is the higher severity |
| SocIncidents.OpenIsUnique | app/soc/services.py:78-87 | at most one incident of an IP is open within the lookback, so the query's order never chooses |
| SocIncidents.DetectDedupes | app/soc/services.py:78-123 | one candidate keeps unreviewed incidents of an IP more than an hour apart |
| SocIncidents.LadderIs | app/soc/services.py:75-120 | without reputation, the severity a list of candidates climbs to is the severity of their best blended score |
| SocIncidents.LateEnrichmentKeepsIff | app/soc/routes.py:651-666 | an enrichment that read the incident before a candidate raised it lowers its severity exactly when the reputation is bad and the candidate raised it by more than one level |
| SocResponse.AlertedIff | app/soc/alerts.py:377-423 | an incident is marked alerted, at its own turn's time, exactly when it is severe enough, no other incident of its IP was alerted within the cooldown and a channel delivered |
| SocResponse.BlockedIff | app/soc/soar.py:147-239 | an incident is blocked exactly when at its own turn it passes every guard and the ban goes through; the block carries the round's time, method and expiry |
| SocResponse.Until | app/soc/soar.py:266-276 | an expiry lies after now, and there is none exactly for a zero duration |
| SocResponse.ExpiryIs | app/soc/soar.py:266-276 | n seconds, minutes, hours or days from now |
| SocResponse.OtherExpiry | app/soc/soar.py:120-122 | a duration setting of any other form stands for 24 hours |
| SocResponse.CooldownIs | app/soc/alerts.py:399-405 | 60 minutes unless configured, within 5 to 1440 |
| SocRuns.DedupeHolds | app/soc/services.py:78-123 | in every run without reopening any two unreviewed incidents of one IP have window ends more than one hour apart |
| SocRuns.ReopeningDedupesIff | app/soc/routes.py:581-602 | reopening an incident keeps that exactly when no unreviewed incident of its IP is nearby |
| SocRuns.ReviewsInFlight | app/soc/services.py:79-122 | reviews committed between a candidate's query and its commit have the effect of the same reviews right after the candidate |
| SocRuns.ReopeningInFlightDedupesIff | app/soc/services.py:79-122 | so a reopening in between keeps the dedupe exactly when none is nearby once the candidate is written |
| SocRuns.ReopeningBreaksDedupe | app/soc/routes.py:581-602 | a run of four steps that ends with two unreviewed incidents ten minutes apart |
| SocRuns.FiguresAreMaxima | app/soc/services.py:88-110 | in every run event_count, score and ml_score are the maxima over exactly the candidates attributed to the incident, all of its IP, and every candidate is attributed exactly once |
| SocRuns.SeverityFloor | app/soc/services.py:75-120 | with fixed thresholds every incident is at least as severe as max(score, ml_score or 0) demands, exactly so without a reputation bump, at most one level above with it, whether the bump came at creation or by retroactive enrichment |
| SocRuns.RecordsPersist | app/soc/services.py:88-95 | over any run of cycles, reviews and enrichments no incident's severity, counts or scores fall, a known reputation stays, and a recorded alert or block is never changed or withdrawn: each incident is alerted and blocked at most once |
| SocRuns.ResponsesOnly | app/soc/services.py:139-159 | a cycle's alerts and blocks touch nothing but those columns, and only of incidents it created |
| SocRuns.CandidateDoes | app/soc/services.py:65-124 | what one candidate does: without an unreviewed incident of its address in the last hour it adds one with every field as given, bumped for a bad reputation that the first 25 ask for; else it raises the one that ended last, and no other |
| SocRuns.CandidatesInTurn | app/soc/services.py:65-124 | several candidates are taken one after the other, counting questions up to 25 |
| SocRuns.ReviewAndEnrichmentDo | app/soc/routes.py:581-666 | what a review and an enrichment change, and that nothing else changes |
| SocRuns.CycleAlertsIff | app/soc/alerts.py:389-442 | a created incident carries an alert after its cycle exactly when alerts are on, its turn came, it is severe enough, no earlier incident of its address carries an alert within the cooldown and a channel delivered |
| SocRuns.CycleBlocksIff | app/soc/soar.py:83-239 | it carries a block exactly when automation is on, the method is CrowdSec or ufw and works, its turn came, it passes every guard with no earlier incident of its address blocked within six hours, and the ban went through |
| SocRuns.NoAutomationNoBlocks | app/soc/soar.py:91-92 | a run whose cycles have automation off records no block |
| SocRuns.SpacingHolds | app/soc/alerts.py:377-423 | over any run alerts of one IP are further apart than every cooldown in force, and blocks of one IP more than six hours apart |
| SocRuns.FirstTwentyFiveAsk | app/soc/services.py:111-120 | of the incidents a cycle creates the first 25 carry the reputation service's answer and the others none |
| SocRuns.Engine.DetectLoop | app/soc/services.py:65-124 | the candidate loop with its enrichment cap computes the specified table |
| SocRuns.Engine.DetectOne | app/soc/services.py:68-123 | one candidate updates the open incident or creates one |
| SocRuns.Engine.NotifyIncidents | app/soc/alerts.py:389-442 | the alert loop computes the specified alerted_at columns |
| SocRuns.Engine.MaybeBlockIncidents | app/soc/soar.py:83-144 | the block loop computes the specified block columns |
| SocRuns.Engine.EvaluateAndBlock | app/soc/soar.py:147-239 | guard after guard, then the ban, then the record |
| SocRuns.Engine.RunDetectionCycle | app/soc/services.py:50-161 | a whole cycle: detection, then alerts, then blocks for the incidents created |
| SocRuns.Engine.SetEstado | app/soc/routes.py:581-602 | a review changes one incident's status and nothing else |
| SocRuns.Engine.EnrichRetroactively | app/soc/routes.py:651-666 | an answer of the reputation service is stored once, and raises the severity by one level when it is bad |
| BackupSchedule.AtMostOneOutcomePerDay | app/backup/worker.py:163-188 | on the PostgreSQL path days persisted to backup_last_run_at strictly increase for any interleaving of N workers with stale clocks, contention and crashes |
| BackupSchedule.SafeIffLockedOrAlone | app/backup/worker.py:163-188 | that holds in every run exactly with the lock and the second check under it, or with at most one worker |
| BackupSchedule.RaceBreaksIt | app/backup/worker.py:187-188 | two workers without the lock record one day twice |
| BackupSchedule.QueuedRaceBreaksIt | app/backup/worker.py:163-183 | and so do two workers that take the lock in turn without checking again under it |
| BackupSchedule.UndisturbedTickServesTheDay | app/backup/worker.py:25-36 | with or without the lock, an undisturbed tick records an outcome exactly when its UTC hour has come and the UTC day has none, whether the backup succeeds or fails, and changes nothing else |
| BackupSchedule.ContendedTickDoesNothing | app/backup/worker.py:168-173 | a tick that finds the lock taken does nothing |
| BackupSchedule.CrashFreesTheLock | app/backup/worker.py:163-188 | a worker that dies loses its lock and records nothing, so another one's next tick serves the day |
| BackupSchedule.HolderIsUndisturbed | app/backup/worker.py:163-183 | while a worker holds the lock, no steps of the others and no waiting change its own stage, the lock, backup_last_run_at or the days persisted |
| BackupSchedule.LockedWorkerAttempts | app/backup/worker.py:163-183 | from any state that keeps the invariant, as every reachable one does, and after any interleaved steps of the others, a worker that has the lock goes on to run the backup exactly when its hour had come and its day had nothing persisted when it got the lock |
| BackupSchedule.LockedTickServesTheDay | app/backup/worker.py:149-188 | a tick that gets the lock records its day's outcome exactly then, and otherwise nothing, whatever the others do in between |
| BackupSchedule.Scheduler.Tick | app/backup/worker.py:149-188 | check, lock, re-check, run, persist and unlock leave configuration and lock as the step machine does; a held lock leaves them alone |
| Retention.NamesSortByTime | app/backup/service.py:226-227 | backup names compare as strings exactly as their seconds compare in time |
| Retention.KeepsTheNewest | app/backup/service.py:140-150 | a prune leaves exactly min(n, max(1, retention)) backups, each newer than each removed |
| Retention.HoldsTheLast | app/backup/service.py:140-150 | over any run of backups the directory holds exactly the last max(1, retention) |
| Retention.JustWrittenSurvives | app/backup/service.py:287-297 | the backup just written survives its prune exactly when fewer than max(1, retention) backups have later names or it cannot be removed; always, when the others are older |
| Retention.SurvivesIff | app/backup/service.py:140-161 | which files a prune leaves: the stuck ones, backups with fewer than max(1, retention) newer ones, and everything else but stale parts |
| Retention.BackupNames | app/backup/service.py:123-133 | what counts as a backup |
| Retention.NameReads | app/backup/service.py:226-227 | a name is its second between the fixed parts, and reads back |
| Retention.ReportedAreRemoved | app/backup/service.py:145-150 | the names reported are exactly the backups that go, newest first |
| Retention.SetBackClockLosesIt | app/backup/service.py:140-150 | with a retention of one and a later-named backup in the directory, the backup just written is removed |
| Retention.BackupDirectory.Unlink | app/backup/service.py:145-150 | the unlink loop removes exactly what can be removed and reports it in order |
| Retention.BackupDirectory.PruneBackups | app/backup/service.py:140-161 | the files left after a prune with files that cannot be unlinked and stale parts |
| BackupZip.RoundTrip | app/backup/service.py:252-287 | a created backup validates exactly within the limits, under its own password, with allowed names and a known migration, and then extracts exactly the collected files, each at its own path |
| BackupZip.AcceptedIff | app/backup/service.py:328-421 | a zip is accepted exactly when it is within the limits, its manifest reads and fits, every listed checksum is right and its migration is known |
| BackupZip.RefusedFor | app/backup/service.py:328-370 | each refusal has its reason: size, readability, the first bad entry and why, the total, the manifest |
| BackupZip.JudgedFor | app/backup/service.py:368-421 | format, application, the first bad checksum and why, then the migration |
| BackupZip.TotalAndReadAre | app/backup/service.py:345-366 | the total counts what is no directory, and of several entries of a name the last is read |
| BackupZip.ExtractedWasChecked | app/backup/service.py:379-436 | for any zip that validates, the extraction goes through exactly when no listed name needs another as its directory, and then writes the paths of the listed names and no others, each with a listed hash for it, an allowed name and a place inside the work directory |
| BackupZip.AllowedStaysInside | app/backup/service.py:319-325 | an allowed name is relative and stands for a file strictly inside the directory it is extracted to |
| BackupZip.WrongPasswordIsRefused | app/backup/service.py:358-366 | a zip with an encrypted manifest is never restored under another password |
| BackupZip.NoEnvFile | app/backup/service.py:252-254 | no .env file is ever packed |
| BackupZip.KeptIff | app/backup/service.py:252-254 | what is not packed: names that start with .env behind the last slash, and no others |
| BackupZip.ReadmeIsPacked | app/backup/service.py:256-278 | the restore instructions are packed as they are |
| BackupZip.ValidateBackupZip | app/backup/service.py:328-421 | the validation loops give the specified verdict, with the reason of the first objection |
| BackupZip.JudgeManifestLoop | app/backup/service.py:368-405 | format, application, every checksum in order, then the migration |
| BackupZip.RestoreFiles | app/backup/service.py:424-436 | nothing is written unless the zip was accepted; then the listed entries one after the other, up to a read or write that raises |
| BackupZip.CreateZip | app/backup/service.py:252-287 | the packing steps build the zip the round trip is about |
| LikeFilter.ChainIsPerCharacter | app/proxy/routes.py:232 | the three chained replacements are one per-character map |
| LikeFilter.IpFilterIsPrefix | app/proxy/routes.py:225-233 | the pattern matches exactly the texts that start with the input, wildcards included |
| LikeFilter.IpFilterSelects | app/proxy/routes.py:225-233 | the query returns exactly the rows with that prefix, in order |
| LikeFilter.SearchFilterIsContains | app/proxy/routes.py:1704-1711 | the pattern matches exactly the texts in which the phrase occurs |
| LikeFilter.SearchFilterIsContainsUpToCase | app/proxy/routes.py:1704-1711 | under ILIKE, exactly those in which it occurs up to case |
| LikeFilter.PatternsAreWellFormed | app/proxy/routes.py:1710-1711 | no input makes a pattern with a dangling escape |
| CustomRules.RenderingPreservesStatementsIff | app/proxy/services.py:513-519 | parsing the rendered rules gives the enabled rules' own statements exactly when no rule ending in a backslash is followed by another with content |
| CustomRules.StatementsOfRules | app/proxy/custom_rules.py:147-160 | otherwise statements are swallowed: there are strictly fewer |
| CustomRules.WrittenReadsBack | app/proxy/custom_rules.py:147-160 | statements of any number of pieces, written over lines that end in white space and a backslash, read back as the pieces joined by single spaces, in order |
| CustomRules.LinesThatCount | app/proxy/custom_rules.py:150-154 | blank lines and comments do not count, others count stripped |
| CustomRules.RenderedRuleByRule | app/proxy/services.py:513-519 | the rendered lines are those of the enabled rules that are not blank, behind eight spaces, rule by rule |
| CustomRules.BreaksOnce | app/proxy/custom_rules.py:150 | CR LF is one break, every other break character one of its own |
| CustomRules.RenderedSignificant | app/proxy/services.py:513-519 | indentation and dropped blank lines change no significant line |
| CustomRules.SplitOfJoin | app/proxy/services.py:519 | splitlines undoes joining with newlines |
| CustomRules.ParseStatements | app/proxy/custom_rules.py:147-160 | the buffer loop computes the statements |
| CustomRules.RenderCustomRules | app/proxy/services.py:513-519 | the extending loop computes the rendered text |
| RuleValidation.AcceptedIff | app/proxy/custom_rules.py:35-83 | a rule is accepted exactly when its name, text, each statement and the ids are good, each error having its condition |
| RuleValidation.ReportedIff | app/proxy/custom_rules.py:35-83 | every error is reported exactly when there is cause for it |
| RuleValidation.IdForm | app/proxy/custom_rules.py:8 | what is read as an id: the key in any case, white space, a colon, white space, a quote or none, and the digits |
| RuleValidation.FindsLeftmost | app/proxy/custom_rules.py:69 | the search finds the leftmost id, and only when there is one |
| RuleValidation.CtlAnywhere | app/proxy/custom_rules.py:53 | the ctl action is found anywhere, as a word of its own |
| RuleValidation.ActionAccepted | app/proxy/custom_rules.py:35-83 | an action with any id in the reserved range is accepted, with a backslash at its end too |
| RuleValidation.AcceptedRulesRunOn | app/proxy/services.py:513-519 | two concrete rules, each accepted, of which rendering makes fewer than two statements |
| RuleValidation.ValidateCustomRule | app/proxy/custom_rules.py:35-83 | the checks in order give the specified list of errors |
| RuleValidation.CheckStatements | app/proxy/custom_rules.py:59-78 | the loop over the statements gives their errors and ids, in order |
| Json.UniqueValue | app/soc/schema.py:43-48 | a JSON text has one reading |
| Json.LoadsIs | app/soc/schema.py:43-48 | so json.loads is well defined |
| Json.ProperPrefixIsNoDocument | app/soc/schema.py:43-58 | no proper prefix of an object is a JSON text |
| Salvage.StripFencesKeeps | app/soc/schema.py:34-40 | fences and white space come off, the rest stays |
| Salvage.CutIsNotParsed | app/soc/schema.py:43-58 | a cut object is not parsed, not even between its first and last brace |
| Salvage.SearchValue | app/soc/schema.py:81-84 | over a whole JSON value the regular expression finds exactly the first string in document order whose key ends in a quote and the field, never anything inside a string |
| Salvage.WholeReply | app/soc/schema.py:204-219 | an untruncated reply gives the field's own value, however its key is spelled |
| Salvage.ObjectReply | app/soc/schema.py:204-219 | any object, fenced or not: a string field gives its value, cut at 1000 or 5000 characters, anything else nothing |
| Salvage.EmbeddedReply | app/soc/schema.py:50-57 | an object in the middle of prose gives its fields all the same |
| Salvage.ProseReply | app/soc/schema.py:71-75 | prose gives its first 1000 characters as the summary |
| Salvage.OtherJsonReply | app/soc/schema.py:43-75 | and so does JSON that is no object |
| Salvage.CutReply | app/soc/schema.py:81-91 | a reply cut after the literal gives the first hit's value, or what the expression finds in the rest when nothing up to the literal is hit; for any spelling of any key |
| Salvage.SalvageReads | app/soc/schema.py:61-91 | so one cut reply agrees with its whole exactly when that is the field's value |
| Salvage.SalvageAgreesIff | app/soc/schema.py:61-91 | cut and whole replies agree for every string the field can hold exactly when the field's key is spelled without escapes and no earlier key is mistaken for it |
| Salvage.SalvageAgreesOnSchema | app/soc/schema.py:61-91 | for objects that keep to the schema any cut after the literal gives the same field as the whole reply; other keys may be spelled with escapes |
| Salvage.LookAlikeKeyWins | app/soc/schema.py:81-84 | a key that ends in a quote and the field name is taken for the field |
| Salvage.EscapedKeyIsLost | app/soc/schema.py:81-84 | a summary under a key spelled with a \u escape is read from the whole reply and lost from the cut one |

## Left out

- SyslogWorker.AtLeastOnce: rows pruned while a forwarding run is in progress, and an unreadable cursor, are excluded; SkippedRowsAreNeverSent says what the latter costs.
- BackupSchedule.AtMostOneOutcomePerDay: interleaved workers are atomic steps of a state machine, a method only where one worker runs undisturbed; the e-mail after a backup and the error back-off are not part of this model.
- RawLogArchive.NothingIsLost: encryption of the archive and its leftover `.part` file after a crash are not part of this model; an archive is the text it holds, and a row counts as kept when its text is a line. CopiesAreConserved counts the lines.
- RawLogArchive.OnlyOldRowsLeave: a retention so large that the date arithmetic overflows is not modelled.
- RawLog.StoredBytes: texts with lone surrogates, on which encoding raises, are not modelled; a Dafny character is a Unicode scalar value.
- SyslogFrame.FrameRoundTrip: header fields are sanitised for spaces only, as in the code; a line break inside a field is excluded for the worker's own frames by RowFrameIsOneLine. The severity mappings are not modelled.
- Redaction.RedactEqualIff: str.lower is a parameter.
- Redaction.SentIs: speaks of the data sent, not of the compact text it is dumped to. The nesting limit is a number, one for parsing, redaction and dump together. That a row is JSON is StoredReadsBack.
- OctetCounting.Sender.Send: the UDP path sends one datagram per frame and is not modelled.
- HostFirewall.ChainInvariant: ports are numbers, so a second spelling such as "08080" is not distinguished; the console-port rules and all ufw commands are not modelled; the marker is what loading its file gives, a map that is empty when it does not load.
- HostFirewall.ProtectionSurvivesRestartIff: the restart after the command is one whose own calls succeed; FailingRestoreProtects is about one whose calls fail.
- SocRuns.SeverityFloor: scores arrive with their candidates; the heuristic and machine-learning arithmetic, rounding included, is not modelled.
- SocRuns.RecordsPersist: an enrichment that overlaps a candidate's turn is excluded; LateEnrichmentKeepsIff says what it costs.
- SocRuns.FiguresAreMaxima: domain, window_start, MITRE mapping and the LLM analysis of an incident are not modelled; ties in the open-incident query are resolved to the first, which OpenIsUnique shows to be no choice.
- SocResponse.BlockedIff: the guards' answers (public address, ban safety, recent admin login) and the ban itself are inputs; a ban that succeeds but whose record fails to commit counts as not recorded.
- SocResponse.Until: durations so large that the date arithmetic overflows, and a setting that ends in a newline, are not modelled.
- BackupZip.RoundTrip: hashing and the manifest's JSON form are parameters, encryption is a password comparison, and the collected names are those of a directory listing; the components, engine and PostgreSQL version fields of the manifest are not modelled.
- BackupZip.ExtractedWasChecked: the work directory starts empty and its file system tells every two spellings of a name part apart; symbolic links, limits on the length of a name and the database restore itself are not modelled.
- Retention.KeepsTheNewest: file modification times only decide which parts are stale; names with non-ASCII digits, which the pattern would also accept, are not modelled.
- LikeFilter.SearchFilterIsContainsUpToCase: case folding is any per-character map that keeps the wildcard and escape characters.
- Salvage.SalvageAgreesOnSchema: severity, confidence and the list fields, Python's limits on nesting and on the digits of integers, and replies that are not strings are not modelled.
- RuleValidation.AcceptedIff: case folding, word characters and the digits of an id are those of ASCII; errors carry the token, line or id of the source's messages and not their text.
- The raw-log prune worker's schedule (app/proxy/rawlog_worker.py) is the backup schedule with its check only under the lock.
- Per-site port flags, nginx templates, routes, forms, notifications, GeoIP and CrowdSec plumbing: user interface and foreign calls.
