# Raxis core: a verified model

This project models the parts of Raxis whose correctness depends on a whole loop or a whole run, and
proves what they promise for all inputs, all interleavings and all histories:

- **Edit distance and suggestions** (`EditDistance`, `Suggest`). The dynamic-programming table computes
  the minimum cost over every edit script, and the two-pass ranking returns the first five of one strict
  total order.
- **Markdown linkifier** (`Linkify`, `LinkifyIdempotence`, `LinkifyLine`, `LinkifyPass`, `LinkifyCut`,
  `LinkifyReference`, `LinkifyExposed`, `LinkifySecondPass`, `LinkifyBlocks`, `LinkifyClassify`,
  `LinkifyTests`, `LinkifyStretches`, `LinkifyLook`, `LinkifyFile`, `LinkifyExamples`). The index loops refine a scanner over the unread suffix. The scanner is idempotent and
  erasing its wrappers restores the line. For repair followed by linkify, the exact condition on the line
  under which a second run is a no-op, and from it the condition for a whole file with its block classifier,
  whose classes are also given block by block.
- **Gateway** (`Dispatch`, `DispatchAnswers`, `Glob`, `Gateway`, `GatewaySafety`, `GatewayRuns`). Reader, up to 512 dispatch tasks,
  bounded response channel, writer and policy slot as one step relation. Concurrency only permutes what
  sequential dispatch answers.
- **Break-glass** (`Breakglass`, `BreakglassCalls`, `BreakglassHistory`). The cached and the persisted record over every
  history of calls, failures, restarts and crashes.
- **Bytes that are signed or loaded** (`ByteLayout`, `SigningLayout`, `LayoutBytes`, `Base64`,
  `OperatorKey`). Unique decoding of the signing layouts and their bytes by position, the base64 round trip, and the three key file formats.
- **Elastic scaling** (`RateLimiter`, `ScaleHistory`, `ElasticScaling`). The sliding admission window, the
  rolling sample windows, and runs of scaling decisions inside their bounds.
- **Image-kind cache** (`ImageCache`), **arrow-flow converter** (`Mermaid`), **worker pool** (`WorkerPool`).

What each main function computes is also stated without that function: the response field by field, the
signed bytes by place value, the blocks of a file as stretches of lines, admission as what operators have
to hand in, and limits, thresholds and names as plain numbers and text.

Objects that the code updates in place are classes whose methods are tied to functions on their value;
index loops are methods with invariants; the two concurrent components are state machines in which a run
is any sequence of steps and a step that is not enabled does nothing.

Five promises of the code's own documentation do not hold as written. The code is modelled as it is, and
the exact condition is proved:

- `raxis/scripts/linkify-md.py:10-12` calls a second run a no-op. On a line with an odd number of
  backticks the repair can fire after the first run has linked: on a link just made that stands before a
  section anchor, or on an older link whose anchor is completed by the bracket of a new one.
  `LinkifySecondPass.SecondPassIff` gives the condition on a line, `LinkifyFile.SecondRunIff` that on a file,
  `LinkifyExamples.SecondPassChanges` and `LinkifyExamples.SecondPassTearsLink` a line of each shape.
- `raxis/gateway/src/policy_view.rs:346-348` lets `*` in an allowlist pattern match any text. That is so
  exactly for the pattern `*` and for patterns without a star: `Glob.DocumentedIff`,
  `Glob.DocumentedFails`.
- `raxis/kernel/src/breakglass.rs:389-391` says a failed activation leaves the file unchanged. It does not
  when the audit sink refuses after the record was persisted: `BreakglassHistory.ErrorLeavesDiskIff`,
  `BreakglassHistory.AuditFailureLeavesRecord`.
- `raxis/kernel/src/elastic.rs:684-689` says a scale-down never raises capacity. It lifts an axis that
  starts below its floor if the other axis is above its own floor and the samples allow a scale-down:
  `ElasticScaling.DownMonotoneIff`, `ElasticScaling.DownCanLift`. In the same way a scale-up cuts an axis
  that starts above its ceiling if the other axis has room and scaling is enabled and prompted:
  `ElasticScaling.UpMonotoneIff`, `ElasticScaling.UpCanCut`.
- `raxis/kernel/src/elastic.rs:713-725` tells too few samples from samples above the thresholds by the
  default window of five, whatever the tracker's window is: `ElasticScaling.SkipReasonRightIff`,
  `ElasticScaling.SkipReasonWrong`.

The distance called Damerau-Levenshtein in the code is its optimal-string-alignment form: no substring is
edited twice. The edit scripts here are exactly those.

Verify everything with `dafny verify dfyconfig.toml`.

## Model

| member | source | states |
|---|---|---|
| `EditDistance.DamerauLevenshtein` | raxis/cli/src/closeness.rs:158-191 | The table loops return the distance: a script of keeps, substitutions, insertions, deletions and adjacent swaps of that cost turns a into b, and no such script is cheaper. |
| `EditDistance.OsaIsDistance` | raxis/cli/src/closeness.rs:163-190 | The recurrence's final cell is the minimum over all scripts. |
| `EditDistance.CheapestScript` | raxis/cli/src/closeness.rs:178-189 | For every pair of prefixes a script whose cost is exactly the table cell exists. |
| `EditDistance.NoCheaperScript` | raxis/cli/src/closeness.rs:178-189 | Every script between two prefixes costs at least the table cell. |
| `EditDistance.Symmetric` | raxis/cli/src/closeness.rs:158-191 | d is the distance from a to b if and only if it is the distance from b to a. |
| `EditDistance.ReverseInvariant` | raxis/cli/src/closeness.rs:158-191 | Reversing both strings keeps the distance, both ways. |
| `EditDistance.DistanceBounds` | raxis/cli/src/closeness.rs:163-190 | Zero exactly on equal strings; at least the length difference, at most the longer length. |
| `EditDistance.TriangleFails` | raxis/cli/src/closeness.rs:158-191 | The triangle inequality fails: CA to AC and AC to ABC cost one each, CA to ABC costs three. |
| `Suggest.DidYouMean` | raxis/cli/src/closeness.rs:57-85 | Returns the ideal suggestion: eligible candidates only, in strict rank order, at most five, none missing when fewer come back, every omitted one ranked after all returned ones; nothing for empty input. |
| `Suggest.PrefixPass` | raxis/cli/src/closeness.rs:64-69 | Exactly the strict prefix extensions, in catalogue order. |
| `Suggest.DistancePass` | raxis/cli/src/closeness.rs:71-79 | Exactly the non-extensions within the length-dependent threshold, each with its distance and index. |
| `Suggest.SortByKey` | raxis/cli/src/closeness.rs:80 | Ascending by distance and index, with the same elements. |
| `Suggest.PassesGiveRanking` | raxis/cli/src/closeness.rs:64-82 | Prefix matches followed by sorted distance matches rank every eligible candidate, once, in strict order. |
| `Suggest.TruncatedRanking` | raxis/cli/src/closeness.rs:82-84 | Cutting the full ranking at five loses only candidates that rank after all kept ones. |
| `Suggest.SuggestionIsUnique` | raxis/cli/src/closeness.rs:16-39 | Input and catalogue determine the suggestion list. |
| `Suggest.NeverTheInput` | raxis/cli/src/closeness.rs:69-73 | The typed command is never suggested back. |
| `Suggest.Thresholds` | raxis/cli/src/closeness.rs:138-145 | A candidate is near when it is no extension and within 0, 1, 2 or 3 edits for inputs of up to 1, up to 3, 4 or more bytes. |
| `Suggest.ByteLenIs` | raxis/cli/src/closeness.rs:62 | The length that counts is that of the UTF-8 text, one to four bytes for each character. |
| `Suggest.SuggestionMeaning` | raxis/cli/src/closeness.rs:57-85 | At most five, never the input, extensions first in catalogue order, then by distance with ties in catalogue order; with fewer than five nothing eligible is missing. |
| `Linkify.ParseRefText` | raxis/scripts/linkify-md.py:176-198 | A recognised reference splits the span's text into file and anchor without loss, up to one trailing newline, and holds no backtick. |
| `LinkifyReference.RecognisesFile` | raxis/scripts/linkify-md.py:176-198 | Every path with a non-empty stem before `.md`, without whitespace and without any of nine named characters, is a reference without anchor, also before one newline. |
| `LinkifyReference.RecognisesAnchor` | raxis/scripts/linkify-md.py:176-198 | Such a path, blanks, a section sign and non-empty text without backticks is a reference with exactly that anchor. |
| `LinkifyReference.RecognisedIs` | raxis/scripts/linkify-md.py:176-198 | Nothing else is a reference. |
| `LinkifyReference.SpaceCodes` | raxis/scripts/linkify-md.py:176-183 | The whitespace of the patterns, by code. |
| `LinkifyReference.CloseIsFirstRun` | raxis/scripts/linkify-md.py:312-326 | The closing run is the first maximal run of exactly that many backticks, and none is reported only if there is none. |
| `LinkifyReference.SpanOutcome` | raxis/scripts/linkify-md.py:336-383 | A single-backtick span becomes a link with its own text and the resolved target and counts one edit, or is copied with a warning naming the file, or is copied. |
| `LinkifyLine.StripHtmlComments` | raxis/scripts/linkify-md.py:258-272 | The spans found by searching for openers and closers cover a backtick exactly when the character automaton is inside a comment there. |
| `LinkifyLine.MeasureRun` | raxis/scripts/linkify-md.py:305-309 | The end of the maximal backtick run at an index. |
| `LinkifyLine.FindClosingRun` | raxis/scripts/linkify-md.py:312-326 | The first later maximal run of exactly the same length, or none. |
| `LinkifyLine.LinkifyLine` | raxis/scripts/linkify-md.py:275-383 | The index loops produce the text, the edit count and the warnings of the suffix scanner. |
| `LinkifyIdempotence.Idempotent` | raxis/scripts/linkify-md.py:275-383 | For every line and every resolver with clean targets, a second application returns the line unchanged with zero edits. |
| `LinkifyIdempotence.SecondPassIdle` | raxis/scripts/linkify-md.py:336-383 | The same from any scanner state: rescanning the output finds nothing to link. |
| `LinkifyIdempotence.NoNewRun` | raxis/scripts/linkify-md.py:312-326 | Rewriting creates no backtick run of a length that had none, so stray runs stay stray. |
| `LinkifyIdempotence.ErasureRestores` | raxis/scripts/linkify-md.py:378-379 | Erasing the inserted wrappers gives the input back. |
| `LinkifyPass.SpanCopiedIff` | raxis/scripts/linkify-md.py:336-365 | A closed span is copied byte for byte exactly when it is in a comment, not single-backticked, already linked, no reference, or unresolved. |
| `LinkifyPass.TicksPreserved` | raxis/scripts/linkify-md.py:275-383 | Linkifying keeps the number of backticks. |
| `LinkifyPass.MatchOrphanText` | raxis/scripts/linkify-md.py:225-234 | A match of the orphan pattern is a prefix of the text made of the reported parts. |
| `LinkifyPass.MatchOrphanFinds` | raxis/scripts/linkify-md.py:225-234 | After the start of a link to a file the pattern is found exactly when its target and anchor part is. |
| `LinkifyPass.RepairTicks` | raxis/scripts/linkify-md.py:237-250 | Each repair removes exactly one backtick, and without a match nothing changes. |
| `LinkifyPass.PassTicks` | raxis/scripts/linkify-md.py:237-250 | One pass keeps the backticks of an even line and removes one per orphan from an odd line. |
| `LinkifyCut.CutIsLine` | raxis/scripts/linkify-md.py:336-383 | Cutting a line into characters and spans to be linked loses nothing: the cut spells the line, and its links are the resolved references. |
| `LinkifyCut.RenderIsOutput` | raxis/scripts/linkify-md.py:378-383 | Rendering the cut, with each marked span wrapped, is the rewritten line. |
| `LinkifyExposed.AnchorIff` | raxis/scripts/linkify-md.py:229-231 | After rewriting an anchor is matched exactly when the cut shows whitespace, a section sign and text before a single backtick, or text, possibly none, before a span to be linked. |
| `LinkifyExposed.OrphanAtIff` | raxis/scripts/linkify-md.py:225-234 | The orphan pattern matches the rewritten line at an item of the cut exactly when a link to be made, or one already there, stands before such an anchor. |
| `LinkifyExposed.FreshLinkIff` | raxis/scripts/linkify-md.py:225-234 | For a target without parentheses and whitespace, a link to be made is exposed exactly when it has no anchor of its own and one follows. |
| `LinkifyExposed.ExposedIff` | raxis/scripts/linkify-md.py:225-250 | The rewritten line holds an orphan exactly when the cut of the line is exposed somewhere. |
| `LinkifySecondPass.SecondPassIff` | raxis/scripts/linkify-md.py:416-430 | A second pass is a no-op if and only if the line has an even number of backticks, or an odd number of orphans, or its repaired text, before any link is made, has no link before an anchor. |
| `LinkifySecondPass.EvenLinesIdempotent` | raxis/scripts/linkify-md.py:244-245 | The documented no-op holds for every line with an even number of backticks. |
| `LinkifyBlocks.FindLocal` | raxis/scripts/linkify-md.py:82-83 | Searching text before a bracket, a parenthesis, a dot or a backtick, and after it, is searching the whole: no comment marker or block tag reads across. |
| `LinkifyClassify.ClassifyLines` | raxis/scripts/linkify-md.py:86-168 | The loop with its flags computes the class that the block state machine gives each line. |
| `LinkifyStretches.BlockClasses` | raxis/scripts/linkify-md.py:107-168 | From every line outside all blocks, the lines up to the first one that closes the block it opens have that block's class, and the next line is outside again. |
| `LinkifyStretches.EveryLine` | raxis/scripts/linkify-md.py:107-168 | Every line is in the front matter or in the block of exactly such a line, and has the class that gives. |
| `LinkifyStretches.FrontMatterIff` | raxis/scripts/linkify-md.py:101-115 | Front matter is exactly what stands up to the first later rule or dots, if the first line is a rule. |
| `LinkifyStretches.FenceIff` | raxis/scripts/linkify-md.py:131-144 | A line is in a fence exactly when a line outside all blocks opens one at or before it and no line between closes that marker. |
| `LinkifyStretches.CommentIff` | raxis/scripts/linkify-md.py:117-149 | A line is in a multi-line comment exactly when a line outside all blocks, which opens no fence, opens one before it and no line between closes it. |
| `LinkifyStretches.TagBlockIff` | raxis/scripts/linkify-md.py:124-158 | A line is in a tag block exactly when it opens one outside all blocks or lies behind such a line, and behind the comment that line may open, with no closing tag between. |
| `LinkifyStretches.ProseIff` | raxis/scripts/linkify-md.py:153-166 | A line is prose exactly when it is outside all blocks, opens neither fence nor tag block, and is not indented behind a blank line. |
| `LinkifyTests.FenceOpenIff` | raxis/scripts/linkify-md.py:82 | A fence opener is at most three blanks and a maximal run of at least three backticks or tildes. |
| `LinkifyTests.FenceCloseIff` | raxis/scripts/linkify-md.py:131-137 | A fence closer is at most three blanks, at least as many of the same character, and blanks. |
| `LinkifyTests.TagOpenIff` | raxis/scripts/linkify-md.py:83 | A block tag is an angle bracket, one of four names in either case, and no word character behind it. |
| `LinkifyTests.TagCloseIff` | raxis/scripts/linkify-md.py:124-129 | A closing tag is an angle bracket, a slash, the name in either case, blanks and an angle bracket. |
| `LinkifyTests.CommentMarkers` | raxis/scripts/linkify-md.py:146-147 | The texts that open and close a comment. |
| `LinkifyTests.FindIsFirst` | raxis/scripts/linkify-md.py:146-154 | A search gives the first place that matches, and none only if there is none. |
| `LinkifyTests.TrimmedLine` | raxis/scripts/linkify-md.py:105-106 | A line is trimmed of its newlines, then of its carriage returns, and of nothing else. |
| `LinkifyTests.IndentedIff` | raxis/scripts/linkify-md.py:160 | Indented means four spaces or a tab. |
| `LinkifyClassify.StatesKept` | raxis/scripts/linkify-md.py:107-168 | Replacing prose lines by lines of the same look changes the class of no line. |
| `LinkifyLook.LinkingFinds` | raxis/scripts/linkify-md.py:378-379 | Linking changes the result of no search of the classifier, for every cut of a line. |
| `LinkifyLook.RepairHas` | raxis/scripts/linkify-md.py:237-250 | Repairing makes no searched pattern appear or disappear. |
| `LinkifyLook.RepairTag` | raxis/scripts/linkify-md.py:237-250 | Where no repaired target holds an angle bracket, repairing keeps the first block tag. |
| `LinkifyFile.ProcessFile` | raxis/scripts/linkify-md.py:401-441 | A file with the skip directive is unchanged; otherwise every prose line is repaired and linked and keeps its newline, every other line is kept. |
| `LinkifyFile.SkippedIff` | raxis/scripts/linkify-md.py:405-406 | A file is skipped exactly when its text is blanks followed by the directive. |
| `LinkifyFile.RewrittenIs` | raxis/scripts/linkify-md.py:420-430 | A prose line is repaired only if its backticks are odd, then linked, and keeps its newline. |
| `LinkifyFile.RunKeepsClasses` | raxis/scripts/linkify-md.py:86-168 | Where no repair moves a block tag to the front, a run changes the class of no line, and it neither adds nor removes the skip directive. |
| `LinkifyFile.SecondRunIff` | raxis/scripts/linkify-md.py:401-441 | Where no repair moves a block tag to the front, a second run over a file is a no-op if and only if the file is skipped or every prose line meets the condition on lines. |
| `LinkifyExamples.SecondPassChanges` | raxis/scripts/linkify-md.py:10-12 | A line whose new link stands before an anchor: the second pass changes it. |
| `LinkifyExamples.SecondPassTearsLink` | raxis/scripts/linkify-md.py:10-12 | A line without any orphan whose second link completes the anchor of the first: the second pass changes it. |
| `LinkifyExamples.RepairCanMoveTag` | raxis/scripts/linkify-md.py:246-249 | A line whose first block tag is another after the repair, so the condition on tags is needed. |
| `LinkifyExamples.AngleTargetChanges` | raxis/scripts/linkify-md.py:258-272 | With a comment opener in a target, linkifying a line twice differs from linkifying it once, so the condition on angle brackets is needed. |
| `Dispatch.SuccessIffEveryGate` | raxis/gateway/src/dispatch.rs:169-283 | A status is returned exactly when the token is right, a view is loaded, the host is allowed, the first declared provider for the host caps at or above the timeout, and the backend answers that provider's call. |
| `DispatchAnswers.AnswerIs` | raxis/gateway/src/dispatch.rs:169-303 | For every request: the error string of the first closed gate, or else the backend's status, headers, body and capped latency for a call with exactly the request's url, method, headers, body and timeout and the provider's idle timeout. |
| `DispatchAnswers.ResponseIsUnique` | raxis/gateway/src/dispatch.rs:169-303 | Those conditions fix the whole response. |
| `DispatchAnswers.ProviderHosts` | raxis/gateway/src/dispatch.rs:340-364 | Which hosts each kind of provider serves, by name. |
| `DispatchAnswers.HostFound` | raxis/gateway/src/dispatch.rs:312-321 | Whatever non-empty text stands between the first `://` and the next slash or colon is the host. |
| `Dispatch.ProviderForHost` | raxis/gateway/src/dispatch.rs:329-364 | The first provider in declaration order that serves the host; none only if none serves it. |
| `Dispatch.HostShape` | raxis/gateway/src/dispatch.rs:312-321 | A host is the non-empty text between the first `://` and the next slash or colon. |
| `Dispatch.SuffixPatternMeaning` | raxis/gateway/src/policy_view.rs:349-360 | A leading `*.` matches exactly the domain and every name below it. |
| `DispatchAnswers.PrefixPatternMeaning` | raxis/gateway/src/policy_view.rs:349-360 | A trailing `.*` matches exactly the name and every name that goes on after a dot. |
| `Glob.DocumentedIff` | raxis/gateway/src/policy_view.rs:346-360 | For every pattern, the code matches the same values as the documented glob, where each star stands for any text, if and only if the pattern has no star or is the single star. |
| `Glob.DocumentedFails` | raxis/gateway/src/policy_view.rs:346-360 | `*.d` matches `d` though it should not, and `a*b` does not match `ab` though it should. |
| `GatewaySafety.BoundedStep` | raxis/gateway/src/runtime.rs:46-57 | Every step keeps permits plus live tasks at 512 and the channel within 1024. |
| `GatewaySafety.SnapshotsStep` | raxis/gateway/src/runtime.rs:295-343 | Every step keeps the slot and each task's snapshot equal to the view fixed by the frames before it. |
| `GatewaySafety.HonestStep` | raxis/gateway/src/runtime.rs:271-315 | Every step keeps each pending, queued or written response the one answer for its request. |
| `GatewaySafety.ConservedStep` | raxis/gateway/src/runtime.rs:203-315 | Every step conserves requests: none duplicated, none lost while the writer lives. |
| `GatewaySafety.InvAlways` | raxis/gateway/src/runtime.rs:203-355 | The four invariants hold after every interleaving. |
| `GatewayRuns.EveryAnswerIsSequential` | raxis/gateway/src/runtime.rs:244-343 | After any interleaving every written response is an overload refusal of a refused request, or sequential dispatch of its request under the view the input fixes there. |
| `GatewayRuns.WrittenIs` | raxis/gateway/src/runtime.rs:244-343 | In every interleaving each written response is, field by field, the overload refusal or the response that gates and backend fix under the last view before the request. |
| `GatewayRuns.RefusedIff` | raxis/gateway/src/runtime.rs:272-298 | A request is refused exactly when 512 tasks are live; otherwise a task starts with the current view. |
| `GatewayRuns.ChannelRoom` | raxis/gateway/src/runtime.rs:203-241 | A response waits exactly while 1024 are queued. |
| `GatewayRuns.WrittenShape` | raxis/gateway/src/dispatch.rs:274-303 | In every interleaving each written response echoes its request's id and is either an error without payload or a full answer. |
| `GatewayRuns.RefusalsIgnoreBackends` | raxis/gateway/src/dispatch.rs:182-235 | A request that a gate refuses gets the same answer in every two interleavings under every two backends. |
| `GatewayRuns.NeverAnsweredTwice` | raxis/gateway/src/runtime.rs:299-314 | No two written responses answer the same request. |
| `GatewayRuns.EveryRequestAccountedFor` | raxis/gateway/src/runtime.rs:203-315 | While the writer lives, each request read is in exactly one place (task, reader, queue, writer, written); after a failure in at most one. |
| `GatewayRuns.DrainedIsSequential` | raxis/gateway/src/runtime.rs:244-343 | A drained run has written a permutation of the sequential gateway's output. |
| `GatewayRuns.Drain` | raxis/gateway/src/runtime.rs:203-241 | From every invariant state with a live writer, finitely many task and writer steps drain everything without reading. |
| `GatewayRuns.WorkLowersWeight` | raxis/gateway/src/runtime.rs:203-315 | Every enabled step of a task, the writer or a waiting refusal lowers a measure, whatever the schedule. |
| `GatewayRuns.StuckIsDrained` | raxis/gateway/src/runtime.rs:203-315 | With a live writer, a state in which nothing outstanding can move has nothing outstanding. |
| `GatewayRuns.EverythingCanBeAnswered` | raxis/gateway/src/runtime.rs:203-315 | Every run with a live writer extends to one whose output is a permutation of sequential dispatch. |
| `GatewayRuns.RefusalNeedsLoad` | raxis/gateway/src/runtime.rs:272-293 | Each refused request has at least 512 requests before it. |
| `GatewayRuns.FewRequestsNeverRefused` | raxis/gateway/src/runtime.rs:51-57 | With at most 512 requests in the input nothing is ever refused. |
| `GatewayRuns.ViewIsLastReload` | raxis/gateway/src/runtime.rs:318-343 | The view at a position is the outcome of the last reload before it. |
| `GatewayRuns.ViewIsInitial` | raxis/gateway/src/runtime.rs:130-136 | Before any reload the view is the initial one. |
| `GatewayRuns.NoViewAfterFailure` | raxis/gateway/src/runtime.rs:334-342 | A failed reload leaves no view until a reload succeeds. |
| `GatewayRuns.FailedReloadClosesGateway` | raxis/gateway/src/runtime.rs:334-342 | After a failed reload, and until a reload succeeds, every request is answered PolicyReloadFailed, or InvalidToken for a wrong token. |
| `Breakglass.SanitiseJustification` | raxis/kernel/src/breakglass.rs:647-657 | CR and LF become spaces, everything else is kept. |
| `Breakglass.LookupFindsFirst` | raxis/kernel/src/breakglass.rs:609-617 | The first operator registered under the fingerprint up to ASCII case; none exactly when no operator is. |
| `Basics.EqIgnoreAsciiCaseIs` | raxis/kernel/src/breakglass.rs:613-616 | Fingerprints are the same up to the case of the letters A to Z. |
| `Breakglass.BreakglassState.Open` | raxis/kernel/src/breakglass.rs:309-324 | An unreadable or corrupt record file is the error of the load; otherwise a live record is cached, an expired one is dropped and removed, and the cap is the default. |
| `Breakglass.BreakglassState.Disabled` | raxis/kernel/src/breakglass.rs:329-335 | Memory only, inactive, default cap. |
| `Breakglass.BreakglassState.SetMaxDuration` | raxis/kernel/src/breakglass.rs:340-343 | Only the cap changes. |
| `Breakglass.BreakglassState.Check` | raxis/kernel/src/breakglass.rs:347-371 | The status at the instant, with an expired record pruned from cache and disk. |
| `Breakglass.BreakglassState.Activate` | raxis/kernel/src/breakglass.rs:406-496 | The whole new state and every error in the code's order, and that it succeeds exactly for an acceptable activation whose write and audit succeed. |
| `Breakglass.BreakglassState.Deactivate` | raxis/kernel/src/breakglass.rs:502-541 | The whole new state and every error in the code's order, and that it succeeds exactly for a registered operator's correct signature on the cached id, if removal and audit succeed. |
| `Breakglass.AdmissionIff` | raxis/kernel/src/breakglass.rs:406-470 | The checks pass exactly for a justification of 1 to 256 bytes, two signers found as different operators, signature 1 of the first and signature 2 of the second over the canonical bytes, an expiry in (now, now + cap], and no unexpired cached record. |
| `BreakglassCalls.ActivationOutcome` | raxis/kernel/src/breakglass.rs:448-496 | An acceptable activation is stored with every field stated and takes effect even if the audit then fails; a refused one and a failed write change nothing. |
| `BreakglassCalls.RefusalNamesDefect` | raxis/kernel/src/breakglass.rs:406-470 | The error names the first defect, in the code's order. |
| `BreakglassCalls.DeactivationOutcome` | raxis/kernel/src/breakglass.rs:502-541 | A registered operator's correct signature on the cached id closes break-glass, on disk too; every other call changes nothing and names its defect. |
| `BreakglassCalls.CheckOutcome` | raxis/kernel/src/breakglass.rs:347-371 | An unexpired record is reported and kept, an expired one dropped from cache and, if removing succeeds, from disk. |
| `BreakglassCalls.OpenOutcome` | raxis/kernel/src/breakglass.rs:309-324 | What opening makes of a live, an expired and a missing record, with a cap of four hours. |
| `BreakglassCalls.EffectIff` | raxis/kernel/src/breakglass.rs:406-541 | An event of a history opens or closes break-glass exactly when the call is acceptable and its disk step succeeds. |
| `BreakglassHistory.ConsistentStep` | raxis/kernel/src/breakglass.rs:309-528 | Every call, restart and crash keeps cache, disk and the last effective event in agreement. |
| `BreakglassHistory.CheckReportsHistory` | raxis/kernel/src/breakglass.rs:309-528 | After every history, with a registry per call and a cap per restart, check reports Active(id, expiry) exactly when the last effective event opened that activation and its expiry is ahead; unexpired cache and disk agree and are that activation; its expiry is within the cap it was admitted under. |
| `BreakglassHistory.RecordsWithinCaps` | raxis/kernel/src/breakglass.rs:448-481 | Every stored record, expired ones included, ends within the largest cap that was ever in force. |
| `BreakglassHistory.RecordReverifies` | raxis/kernel/src/breakglass.rs:413-476 | The bytes recomputed from the sorted and sanitised stored record verify under both stored, distinct signers in one of the two pairings. |
| `BreakglassHistory.StoredRecordReverifies` | raxis/kernel/src/breakglass.rs:413-476 | Whatever cache or disk holds after any history was admitted by an event of that history and verifies under both stored signers with that event's registry. |
| `BreakglassHistory.EndsOnlySignedOff` | raxis/kernel/src/breakglass.rs:502-528 | Over every history, an activation that is no longer reported before its expiry was ended by a deactivation of exactly that activation over a registered operator's signature, or by a restart of a state that is not persisted. |
| `BreakglassHistory.ErrorLeavesDiskIff` | raxis/kernel/src/breakglass.rs:389-391 | A failing activation leaves the file unchanged if and only if it is not an audit refusal after a successful persist. |
| `BreakglassHistory.AuditFailureLeavesRecord` | raxis/kernel/src/breakglass.rs:475-494 | A concrete call that returns the audit error with the record on disk and active. |
| `SigningLayout.CanonicalSigningBytes` | raxis/kernel/src/breakglass.rs:579-591 | The buffer pushes build the activation layout over the sorted signers. |
| `LayoutBytes.ActivationLayout` | raxis/kernel/src/breakglass.rs:579-607 | Byte by byte: the tag and a NUL, the smaller and the larger fingerprint each after its length in four bytes, the expiry second in eight bytes of two's complement, all most significant first, and the justification after its length. |
| `LayoutBytes.DeactivationLayout` | raxis/kernel/src/breakglass.rs:596-607 | Byte by byte: the tag and a NUL, the sixteen bytes of the id, and the fingerprint after its length. |
| `LayoutBytes.GrantLayout` | raxis/cli/src/signing.rs:118-146 | Byte by byte: the tag, session, capability and role with NULs, the expiry least significant first, a NUL, and the absent or present scope with its length. |
| `SigningLayout.SortCanonical` | raxis/kernel/src/breakglass.rs:582-583 | Two signer lists sort alike exactly when they are the same multiset; sorting twice is sorting once. |
| `SigningLayout.ActivationBytesUnique` | raxis/kernel/src/breakglass.rs:579-607 | Two-signer activation bytes are equal exactly for the same signer multiset, expiry second and justification. |
| `SigningLayout.TagsSeparate` | raxis/kernel/src/breakglass.rs:581-598 | Activation bytes never equal deactivation bytes. |
| `SigningLayout.DeactivationBytesUnique` | raxis/kernel/src/breakglass.rs:596-602 | Deactivation bytes are equal exactly for the same activation id and signer. |
| `ByteLayout.PrefixedDecodes` | raxis/kernel/src/breakglass.rs:604-607 | A length-prefixed field is determined by the bytes, whatever follows. |
| `SigningLayout.DelegationGrantSigningDomain` | raxis/cli/src/signing.rs:118-146 | The buffer pushes build the grant layout. |
| `SigningLayout.GrantBytesUnique` | raxis/cli/src/signing.rs:118-146 | For NUL-free identifiers the grant bytes are equal exactly for equal grants, with and without scope. |
| `SigningLayout.NulIdentifiersCollide` | raxis/cli/src/signing.rs:128-133 | Every grant with a NUL in its session, capability or role has a different grant, with the same expiry and scope, of the same bytes. |
| `Base64.BuildTable` | raxis/cli/src/signing.rs:153-163 | Each alphabet character maps to its value, padding to zero, everything else to 255. |
| `Base64.AlphabetIs` | raxis/cli/src/signing.rs:153-163 | The 64 digits are A to Z, a to z, 0 to 9, plus and slash. |
| `Base64.TableIs` | raxis/cli/src/signing.rs:153-163 | The value of every byte: its digit, zero for the equals sign, otherwise none. |
| `Base64.StripIs` | raxis/cli/src/signing.rs:165 | Exactly newlines and carriage returns are dropped. |
| `Base64.FilterNewlines` | raxis/cli/src/signing.rs:165 | The text without its CR and LF bytes. |
| `Base64.DecodeChunk` | raxis/cli/src/signing.rs:171-186 | One group of four: refused on its first two characters, else one to three bytes. |
| `Base64.DecodedGroupIs` | raxis/cli/src/signing.rs:171-186 | A group stands for a number of 24 bits, of which one to three bytes are given by where the equals signs are. |
| `Base64.GroupValue` | raxis/cli/src/signing.rs:152-188 | The encoder that is inverted writes three bytes as four digits to the base 64, most significant first. |
| `Base64.PaddedGroups` | raxis/cli/src/signing.rs:152-188 | It pads one or two last bytes with zeros and replaces the last characters by equals signs. |
| `Base64.Base64Decode` | raxis/cli/src/signing.rs:152-188 | The chunk loop computes the group-by-group decoding, or the length or character error. |
| `Base64.DecodeEncode` | raxis/cli/src/signing.rs:170-187 | The group decoder inverts the padded encoder of section 4 of RFC 4648 on every byte string. |
| `Base64.RoundTrip` | raxis/cli/src/signing.rs:152-188 | The same under any insertion of CR and LF. |
| `Base64.AcceptedIff` | raxis/cli/src/signing.rs:166-178 | Accepted exactly when the stripped length is a multiple of four and the first two characters of each group are in the table. |
| `Base64.RefusalIs` | raxis/cli/src/signing.rs:166-178 | A refused text has a length that is no multiple of four, or else a leading character that is none. |
| `OperatorKey.LoadsPem` | raxis/cli/src/signing.rs:71-88 | Any DER that ends in a 32-byte seed, encoded and wrapped into any lines with either line ending, loads as that seed. |
| `OperatorKey.LoadsDer` | raxis/cli/src/signing.rs:71-88 | Of any DER the last 32 bytes are the key; a shorter one is refused. |
| `OperatorKey.FrameTexts` | raxis/cli/src/signing.rs:45-75 | The header, footer and marker are the texts of the file formats. |
| `OperatorKey.LoadsHexSeed` | raxis/cli/src/signing.rs:35-43 | 64 hex digits load as their seed whatever whitespace surrounds them. |
| `OperatorKey.LoadsGenesis` | raxis/cli/src/signing.rs:45-69 | A marker line followed by the seed in hex loads as that seed, whatever comes after. |
| `OperatorKey.MarkerAlone` | raxis/cli/src/signing.rs:57-62 | A marker line with nothing after it is malformed. |
| `OperatorKey.HexRoundTrip` | raxis/cli/src/signing.rs:38-64 | Hex decoding inverts hex encoding. |
| `OperatorKey.HexValue` | raxis/cli/src/signing.rs:38-64 | The value of every hex digit in either case. |
| `OperatorKey.HexByte` | raxis/cli/src/signing.rs:38-64 | The hex text that is inverted writes the higher digit first. |
| `RateLimiter.ScalingRateLimiter.TryAdmit` | raxis/kernel/src/elastic.rs:828-843 | Prunes from the front, defers on a zero or used-up budget, else records the stamp. |
| `RateLimiter.DefersIffWindowFull` | raxis/kernel/src/elastic.rs:828-843 | Under a non-decreasing clock a call is deferred exactly when its budget is zero or the closed 60-second window's admissions use it up. |
| `RateLimiter.WindowWithinBudget` | raxis/kernel/src/elastic.rs:828-843 | Admissions in any closed 60-second window stay within the budget of its last admission. |
| `RateLimiter.RecentWithinBudget` | raxis/kernel/src/elastic.rs:828-843 | Under one budget and an arbitrary clock, admissions stamped within 60 seconds of the largest time seen stay within budget. |
| `ScaleHistory.ScaleDownHistory.WithWindowSize` | raxis/kernel/src/elastic.rs:605-610 | Empty, with a window of at least one. |
| `ScaleHistory.ScaleDownHistory.RecordSample` | raxis/kernel/src/elastic.rs:618-627 | Appends to the role's queue and evicts from the front; other roles are untouched. |
| `ScaleHistory.ScaleDownHistory.Samples` | raxis/kernel/src/elastic.rs:633-639 | The role's queue, empty if there is none. |
| `ScaleHistory.ScaleDownHistory.ShouldDownscale` | raxis/kernel/src/elastic.rs:648-660 | True exactly when the window is full and every sample is under both thresholds. |
| `ScaleHistory.ScaleDownHistory.Clear` | raxis/kernel/src/elastic.rs:668-670 | Forgets the role and nothing else. |
| `ScaleHistory.QueueIsLastN` | raxis/kernel/src/elastic.rs:618-670 | Over every run across roles, a role's queue is its last N samples since its last clear. |
| `ScaleHistory.TriggerIff` | raxis/kernel/src/elastic.rs:648-660 | Over every run the trigger fires exactly when N samples exist since the clear and the last N are under both thresholds. |
| `ElasticScaling.UpFacts` | raxis/kernel/src/elastic.rs:429-496 | From inside the bounds Up stays inside, lowers neither axis, and an Apply raises at least one. |
| `ElasticScaling.BoundsAre` | raxis/kernel/src/elastic.rs:226-243 | A plan's ceiling counts where it is below policy's, its floor where it is below the ceiling; the defaults are one vCPU and no memory. |
| `ElasticScaling.UpReasons` | raxis/kernel/src/elastic.rs:429-496 | The reason of every skipped and applied scale-up, by its text. |
| `ElasticScaling.SkippedOnlyAtBounds` | raxis/kernel/src/elastic.rs:429-764 | From inside the bounds a prompted scale-up is skipped exactly at both ceilings, an allowed scale-down exactly at both floors. |
| `ElasticScaling.FractionIs` | raxis/kernel/src/elastic.rs:393-402 | The scaled memory is cut to whole units and to 32 bits. |
| `ElasticScaling.FlagOnlyStopsUp` | raxis/kernel/src/elastic.rs:334-391 | Without the elastic flag a scale-up changes nothing, a scale-down is as with it. |
| `ElasticScaling.DownFacts` | raxis/kernel/src/elastic.rs:706-764 | From inside the bounds Down stays inside, raises neither axis, and an Apply lowers at least one. |
| `ElasticScaling.UpMonotoneIff` | raxis/kernel/src/elastic.rs:429-496 | A scale-up lowers no vCPUs if and only if they are not above the ceiling, or memory has no room, or scaling is off or unprompted; the same for memory. |
| `ElasticScaling.DownMonotoneIff` | raxis/kernel/src/elastic.rs:684-764 | A scale-down raises no vCPUs if and only if they are not below the floor, or memory has no room, or the samples do not allow it; the same for memory. |
| `ElasticScaling.UpCanCut` | raxis/kernel/src/elastic.rs:348-357 | A concrete applied scale-up that halves the vCPUs. |
| `ElasticScaling.DownCanLift` | raxis/kernel/src/elastic.rs:684-689 | A concrete applied scale-down that doubles the vCPUs. |
| `ElasticScaling.RunStaysInside` | raxis/kernel/src/elastic.rs:334-391 | Every run of decisions stays inside the bounds and keeps the rest of the spec. |
| `ElasticScaling.UpsDouble` | raxis/kernel/src/elastic.rs:349-353 | k scale-ups give min(ceiling, v * 2^k) vCPUs. |
| `ElasticScaling.UpMemory` | raxis/kernel/src/elastic.rs:373-378 | Memory grows by half with one signal and doubles with several, rounded down, up to the ceiling. |
| `ElasticScaling.DownExact` | raxis/kernel/src/elastic.rs:358-384 | A scale-down takes one vCPU and a quarter of the memory, down to the floors. |
| `ElasticScaling.DownShrinks` | raxis/kernel/src/elastic.rs:706-764 | An allowed scale-down makes the machine smaller unless both axes are at the floor. |
| `ElasticScaling.DownsReachFloor` | raxis/kernel/src/elastic.rs:358-384 | Repeated scale-downs reach exactly the floor of both axes. |
| `ElasticScaling.SkipReasonRightIff` | raxis/kernel/src/elastic.rs:713-725 | The skip reason fits every queue if and only if the window is the default of five. |
| `ElasticScaling.SkipReasonWrong` | raxis/kernel/src/elastic.rs:713-725 | A tracker with a window of one, full with one busy sample, is skipped for insufficient history. |
| `ElasticScaling.SkipReasonEveryWindow` | raxis/kernel/src/elastic.rs:706-764 | Over every run with any window, the decision goes past the samples exactly when they allow a scale-down, and otherwise names its reason by the default window. |
| `ElasticScaling.SkipReasonOverRuns` | raxis/kernel/src/elastic.rs:706-764 | Over every run of the default tracker the decision and its reason fit the samples since the last clear. |
| `ImageCache.ImageKindCache.ResolveImageKindForRole` | raxis/kernel/src/canonical_images_preflight.rs:496-607 | The answer and the new cache, for every outcome of the stat, the read and the verification. |
| `ImageCache.EntriesVerified` | raxis/kernel/src/canonical_images_preflight.rs:584-606 | After every run each cache entry was verified by an earlier lookup with that stamp. |
| `ImageCache.CacheAgrees` | raxis/kernel/src/canonical_images_preflight.rs:501-607 | Over every run in which stamps tell, the cached resolver answers what the uncached verifier would. |
| `ImageCache.UntrustedNotStored` | raxis/kernel/src/canonical_images_preflight.rs:537-581 | An untrusted outcome leaves the cache as it was, so a repaired manifest is seen on the next call. |
| `ImageCache.UncachedIs` | raxis/kernel/src/canonical_images_preflight.rs:528-583 | Trusted exactly when a manifest is there and verifies; otherwise the claimed format, or EROFS. |
| `ImageCache.NoStampNoCache` | raxis/kernel/src/canonical_images_preflight.rs:508-526 | Without an image or its modification time nothing is looked up and nothing stored. |
| `ImageCache.OtherStampMisses` | raxis/kernel/src/canonical_images_preflight.rs:508-526 | A cached answer counts only for the same modification time, length, version and kind. |
| `ImageCache.VerifiedIsStored` | raxis/kernel/src/canonical_images_preflight.rs:584-606 | A verified answer is given again for the same stamp, version and kind whatever the verifier would say. |
| `ImageCache.StaleManifestUnseen` | raxis/kernel/src/canonical_images_preflight.rs:508-526 | A manifest replaced under an untouched image is not noticed. |
| `Mermaid.FreshId` | raxis/scripts/ascii-to-mermaid.py:230-236 | The retry loop ends for every finite set of taken identifiers, at the first free candidate. |
| `Mermaid.CandidatesDiffer` | raxis/scripts/ascii-to-mermaid.py:235 | Different attempts give different candidates. |
| `Mermaid.CandidateText` | raxis/scripts/ascii-to-mermaid.py:230-236 | The first candidate is the base, the next are numbered from two. |
| `Mermaid.BaseIs` | raxis/scripts/ascii-to-mermaid.py:225-229 | The base is the cleaned label without underscores at its ends, with an N before what starts with no letter, and N and a count for an empty one. |
| `Mermaid.GapIsUnderscore` | raxis/scripts/ascii-to-mermaid.py:219-225 | A run of other characters becomes one underscore. |
| `Mermaid.KeptName` | raxis/scripts/ascii-to-mermaid.py:219-225 | Letters, digits and underscores are kept. |
| `Mermaid.DecimalIs` | raxis/scripts/ascii-to-mermaid.py:226-235 | Numbers are written in decimal without leading zeros. |
| `Mermaid.CandidateIsIdentifier` | raxis/scripts/ascii-to-mermaid.py:225-229 | Whatever the label, a candidate starts with a letter and holds only letters, digits and underscores. |
| `Mermaid.NodeTable.NodeId` | raxis/scripts/ascii-to-mermaid.py:222-237 | Known labels keep their id, a new label gets the first free candidate, and the map stays injective. |
| `Mermaid.IsLinearArrowFlow` | raxis/scripts/ascii-to-mermaid.py:179-211 | The carried tail accepts exactly the blocks whose lines each start where the previous one ended. |
| `Mermaid.LinearFlowIs` | raxis/scripts/ascii-to-mermaid.py:179-211 | A linear flow: no boxes, at least three lines, each with an arrow, no number and two parts, each beginning where the one before ended. |
| `Mermaid.ChainWalks` | raxis/scripts/ascii-to-mermaid.py:248-254 | The edges of a chain form one walk from its first part to its last. |
| `Mermaid.EdgeIs` | raxis/scripts/ascii-to-mermaid.py:248-254 | The edges are, line by line, every part with the next. |
| `Mermaid.NameEdges` | raxis/scripts/ascii-to-mermaid.py:255-259 | Every edge keeps its labels and is named by one injective map. |
| `Mermaid.ConvertLinearArrowFlow` | raxis/scripts/ascii-to-mermaid.py:240-260 | Converts exactly the linear flows, into their edges in order, as one walk over labels and over identifiers. |
| `WorkerPool.InvAlways` | raxis-site/src/lib/docs.ts:365-384 | After every completion order the counter, the claims, the workers and the results agree. |
| `WorkerPool.ConfiguredLimit` | raxis-site/src/lib/docs.ts:63-68 | The limit is what is configured, between 1 and 12, and 6 if nothing is. |
| `WorkerPool.ClaimsAndOutstanding` | raxis-site/src/lib/docs.ts:365-384 | Each index below the counter was claimed exactly once, in order; at most `limit` calls are outstanding, for different indices. |
| `WorkerPool.DoneIsSequentialMap` | raxis-site/src/lib/docs.ts:365-384 | When every worker has finished without rejection the output is the sequential map. |
| `WorkerPool.StepsEnd` | raxis-site/src/lib/docs.ts:375-379 | Every enabled step lowers a measure, so every schedule ends. |
| `WorkerPool.StuckIsSettled` | raxis-site/src/lib/docs.ts:375-382 | A state without an enabled step has settled every worker. |
| `WorkerPool.CompletedIsSequentialMap` | raxis-site/src/lib/docs.ts:365-384 | Under any configured limit, a schedule that no longer moves and had no rejection has produced the sequential map in input order. |

## Left out

- Sockets, frame codecs, HTTP, TLS, file modes and fsync: only the abstract steps remain (read a frame, write a response, persist or remove a record), each with a success flag where the code reacts to failure.
- Ed25519, SHA-256, TOML and JSON parsing and the audit writer: predicates, functions or success flags handed to the model.
- Gateway startup, handshake and initial policy load, and the abort of live tasks when the runtime returns: a run is any prefix of steps from the initial state.
- Gateway.Next: the runtime is a state machine on values, not a class, because its tasks run concurrently.
- Unicode lower-casing of host names is a parameter of the gateway; whitespace trimming of key files knows ASCII whitespace only.
- Suggest.SortByKey: the library sort is an insertion sort here; the keys are distinct, so the result is the same.
- Interleavings of lock sections inside one break-glass call: each call is atomic except for a crash between its disk and its memory step.
- Per-action break-glass audit logging. A failed open is an error of `Open` and not an event of a history: the kernel does not start, and the disk is as it was.
- LinkifyIdempotence.Idempotent: resolved targets hold no backtick and no angle bracket (`LinkifyExamples.AngleTargetChanges` shows that the latter is needed); file lookup is a function from names to targets.
- LinkifyIdempotence.ErasureRestores: for text without a newline, which is how lines reach the scanner; the end anchor of the reference pattern drops a trailing newline inside a span.
- LinkifyFile.SecondRunIff: for targets without line breaks and for files in which no repair changes the first block tag of a prose line (`LinkifyFile.PlainTagKept` gives a sufficient condition on the line). A file is its list of lines: splitting the text, walking the tree and the warnings' text are not modelled, and block tags are compared in ASCII.
- Base64.RoundTrip: full validation is not claimed because the decoder looks at the first two characters of a group only; `Base64.AcceptedIff` says exactly what it accepts.
- ImageCache.CacheAgrees: files change between calls only, equal modification time and length mean equal bytes, and a manifest changes only together with its image; lock poisoning is not modelled.
- Mermaid.IsLinearArrowFlow: the line patterns are reduced to the parts they deliver; the text around the edges is not modelled.
- WorkerPool.InvAlways: a state machine over the points where a worker awaits; what `Promise.all` does with the calls still pending after a rejection is not modelled.
- Bootstrap, data directory layout, dashboards, command tables, environment parsing and site pages: branch-by-branch code whose properties are easy to read off.
