# Verified model of the refine session and its collectors

The repository turns an inspected Linux host into an image definition. This project models the
parts that decide what the image will carry:

- **the refine session**, an event-sourced editor: an original snapshot, a timeline of ops, batches
  and view directives, a cursor, a generation counter and a cached view. The current state is the
  replay of the active timeline over the original, with cascades, locks, refusals, undo and redo;
- **what feeds it**: the repo index, the package classifier and the construction-time defaults;
- **what feeds the snapshot**: threaded two-wave collection, the RPM facts it hands on, and the
  date of the baseline;
- **text handling at the edges**: the secret scrubber with its span finder, and RPM filenames.

## How it is built

| file | what it holds |
|---|---|
| `Types`, `Strings` | the snapshot, ops and timeline entries; first-match search, filtering, string search |
| `RepoIndex` | the index, built by the loops of the original and proved to read off the repo files both ways |
| `Replay`, `ClosedForms` | what a timeline means: one op's write to one slot, replay, and closed forms over all timelines |
| `Projector` | the replay as the session runs it, step by step over snapshot parts, proved equal to `Replay` |
| `GroupState`, `Classify`, `Normalize` | group render states, triage, construction-time defaults |
| `SessionState`, `Views`, `Session` | the session as a value, its view, and the class `RefineSession` proved against both |
| `Runs`, `Safety`, `Noops`, `ViewFacts`, `Uploads` | theorems over whole runs |
| `ReplayLaws`, `ViewLaws`, `GroupLaws`, `SessionLaws`, `TriageLaws`, `RepoLaws`, `Secrets` | the laws: what each operation means, in the operator's own terms |
| `Calendar` | day count to civil date |
| `Redaction`, `Scrubber`, `Compose` | span finder, one scrubbed line, whole files |
| `RpmFilename`, `UploadMatch` | filename parsing, the staged-name allowlist, upload matching |
| `RpmStates`, `Collect`, `Waves`, `WaveLog`, `Schedules` | RPM facts, joining, collection as a state machine over thread steps, its event log, what a schedule starts |

`RefineSession` has the fields and methods of the original class. `State` is the tuple of those
fields, `SessionState` says what each call does to it, and every method's contract ties the new
state to that and keeps `Valid()`: the state is well formed and the cached view is the view of that
very state. A run is a sequence of states linked by calls, so the theorems over runs speak about
every sequence of calls. The replay itself is stated slot by slot (`Replay.Writes...`): the loops of
`Projector` are proved against it and the closed forms are proved about it.

The law modules close the circle. A method proved against a specification function is only as right
as that function, so each law says what the function means without it: over the scan, the ops in
the timeline, the characters of a line. They use first and last matches, quantifiers and literal
words, and no vocabulary of the replay, the filters or the classifier.

## Where the code and its comments part

The model follows the code in each of these places.

- A comment in `apply_batch` says no-ops are filtered; the code drops only includes of locked
  targets and validates nothing (crates/refine/src/session.rs:1450-1468). `Safety.BatchSafetyIsExact`
  says what that costs, `Safety.BatchCanBreakTheRule` gives a batch.
- `derive_group_state` documents a priority in which a multilib conflict outranks an override; the
  loop reports whichever comes first in member order (crates/refine/src/group_state.rs:64-146).
  `GroupState.StateMatchesPriority` gives the exact condition.
- Construction classifies before it synthesizes rows for orphan full-shadow units, and those rows
  have no owning package. So a package excluded as installer noise stays excluded and is shown for
  investigation, its evidence unavailable (crates/refine/src/session.rs:514-529,
  crates/refine/src/classify.rs:243-247). `Normalize.SynthesisShiftsClassification` says exactly
  when, `Normalize.SynthesisCanShift` gives a scan.
- Removing an upload clears the cache fields when nothing was displaced, so a package that was not
  cached gets its fields back only if they were empty (crates/refine/src/session.rs:1244-1311):
  `Uploads.UploadsAreUndone` exactly, `Uploads.UploadCanLoseCache` by an example.
- An uploaded file of another version does not always lead to its package. A name with a dash before
  a digit (`dotnet-sdk-8.0`, `java-1.8.0-openjdk`) is cut there, and only shorter names are tried
  (crates/core/src/rpm_filename.rs:105-112, crates/refine/src/session.rs:1076-1085). And a version
  that starts with a letter is read as part of the name, so with a lettered release the file is
  reported as the version the host has. `UploadMatch.OtherVersionIsExact` is an if-and-only-if;
  `UploadMatch.DottedNameIsLost` and `UploadMatch.LetterVersionIsTakenForTheHosts` give files.
- Scrubbing twice is scrubbing once except where two carriage returns stand before a newline: one
  goes at each pass (crates/core/src/redaction.rs:257). `Compose.ScrubTwiceIsExact` holds for every
  text, `Compose.OrdinaryFilesSettle` draws the case of files with ordinary line ends of either
  kind, and `Compose.CarriageReturnsShrink` gives the text.
- URL credentials are masked up to the first `@` after the scheme only, so a password holding an `@`
  leaves its rest in the output: `postgres://u:p@ss@h` becomes
  `postgres://<REDACTED>:<REDACTED>@ss@h` (crates/core/src/redaction.rs:244-254).
  `Scrubber.UrlLinesScrubAlike` says exactly what is hidden, `Scrubber.RawAtSignShows` is this input.
- A collection cancelled before or within its second wave can be reported complete
  (crates/pipeline/src/collect.rs:189-205). `Schedules.StartedIsExact` says which schedules start
  everyone, `Schedules.CompleteReportIsExact` what a complete report is worth, and
  `Waves.CancelledRunCanBeComplete` gives a run.
- A repo id is taken for the distribution's own when `baseos` or `appstream` stands in it as a
  segment, says the comment; the code looks at the first occurrence only, so `xbaseos-baseos` is not
  (crates/core/src/types/repo.rs:40-55). `RepoLaws.DistroIsExact` is an if-and-only-if,
  `RepoLaws.LaterSegmentIsMissed` is this id.
- Verification results and the path index can name different owners of one file
  (crates/pipeline/src/collect.rs:479-502): `RpmStates.OwnersAgree` exactly,
  `RpmStates.OwnersCanDisagree` by an example.

## Model

| member | source | states |
|---|---|---|
| RepoIndex.Build | crates/refine/src/repo_index.rs:34-132 | the file, key and reverse key maps hold a pair exactly when some repo file defines or references it, so the two key maps are dual; each section's provenance is settled by its last definition, and ids only packages mention are stale |
| RepoIndex.FilePairsMeaning | crates/refine/src/repo_index.rs:41-79 | the pairs the nested loops insert are exactly the (section, file) pairs in which the file defines the section |
| RepoIndex.KeyPairsMeaning | crates/refine/src/repo_index.rs:58-79 | the same for (section, key) pairs |
| RepoLaws.ProvenanceIsExact | crates/refine/src/repo_index.rs:96-114 | a defined section is disabled when its last definition, in any ASCII case, is; else verified when that has a source and every key it names was captured; else incomplete |
| RepoLaws.UndefinedProvenanceIsExact | crates/refine/src/repo_index.rs:114-162 | a section no file defines is stale when some package came from it and unknown otherwise, as are the empty id and `@commandline` |
| RepoLaws.DistroIsExact | crates/core/src/types/repo.rs:6-90 | a repo is the distribution's own exactly when it has one of seven names, or when the first occurrence of `baseos` or `appstream` is a dash-delimited segment and it is none of three optional repos, in any ASCII case |
| RepoLaws.LaterSegmentIsMissed | crates/core/src/types/repo.rs:40-55 | a concrete id that holds `baseos` as a segment and is not taken for the distribution's own |
| ClosedForms.LastWriteDecides | crates/refine/src/session.rs:2644-3022 | after any timeline a locked slot is excluded and any other slot carries the last write any active op made to it, else its original disposition; which op writes what to which item is said by the four laws of `ReplayLaws` below |
| ReplayLaws.ConfigClosedForm | crates/refine/src/session.rs:2673-2691 | after any timeline a locked config is excluded; advisories, inventory and later files at a path are as found; any other carries the include value of the last active op on its path, else its original disposition |
| ReplayLaws.RowClosedForm | crates/refine/src/session.rs:2793-2808 | after any timeline a locked service row is excluded, a later row of a unit is as found, and any other carries the include value of the last active op on its unit, else its original disposition |
| ReplayLaws.DropInClosedForm | crates/refine/src/session.rs:2793-2817 | after any timeline a locked drop-in is excluded and any other carries the include value of the last active op on its path, if first there, or on its unit, less includes of a locked unit |
| ReplayLaws.PackageClosedForm | crates/refine/src/session.rs:2656-2878 | after any timeline a locked package is excluded and any other carries the include value of the last active op that names it first-match, names its repo in any ASCII case, or names a group whose first entry lists it |
| ReplayLaws.SomeLastHit | crates/refine/src/session.rs:2644-2672 | the closed forms leave no timeline undecided: either no active op reaches the item or there is a last one |
| ClosedForms.LastWriterWins | crates/refine/src/session.rs:2656-2672 | an unlocked package carries the include value of the last active op that reaches it directly, through a group or through its repo in any ASCII case, else its original disposition; a locked one is excluded; for every timeline, batches and stale ops included |
| ClosedForms.ExcludedMeaning | crates/refine/src/session.rs:3102-3126 | a section is finally excluded exactly when the last repo op on it, in any ASCII case, is an exclude |
| ClosedForms.FullyExcludedEndsExcluded | crates/refine/src/session.rs:2706-2745 | when every owning section ends up excluded the last cascade write is an exclude, although excludes are replayed against the final excluded set |
| ClosedForms.CascadeClosedForm | crates/refine/src/session.rs:2692-2792 | cascade replay equals: excluded if all owners end excluded, else included if an active include hit an owner, else as found |
| ClosedForms.RepoFileClosedForm | crates/refine/src/session.rs:2706-2745 | that closed form for every repo file over the sections defining it, then the lock clamp |
| ClosedForms.GpgKeyClosedForm | crates/refine/src/session.rs:2746-2792 | that closed form for every GPG key over the sections referencing it |
| Projector.IsItemLocked | crates/refine/src/session.rs:285-357 | answers whether the op's direct target, found first-match, is locked in the given snapshot |
| Projector.ExcludedSectionsAt | crates/refine/src/session.rs:3102-3126 | the set kept while walking the active timeline is the finally excluded one |
| Projector.CascadeRepoPackages | crates/refine/src/session.rs:259-281 | writes the flag to every unlocked package attributed to the section and to no other |
| Projector.ReplayRepo | crates/refine/src/session.rs:2692-2792 | one repo op in place writes packages, repo files and keys as the slot semantics says and nothing else |
| Projector.ReplayOp | crates/refine/src/session.rs:2656-2878 | every kind of op, applied in place, does to each slot what the slot semantics says, whose meaning `ReplayLaws` and `ClosedForms` give |
| Projector.ClampLockedItems | crates/refine/src/session.rs:359-492 | every locked item is excluded and no other slot changes |
| Projector.ProjectSnapshot | crates/refine/src/session.rs:2644-3022 | replaying a timeline in place and clamping gives the projection the closed forms of `ReplayLaws` and `ClosedForms` are about, slot kind by slot kind |
| GroupState.DeriveGroupState | crates/refine/src/group_state.rs:74-146 | the loop over three flags with early returns gives the first stopping member's reason, else the state all members together imply |
| GroupState.StateMatchesPriority | crates/refine/src/group_state.rs:64-146 | the result is the documented priority state if and only if no overridden member stands before the first conflicting one |
| GroupState.OverrideCanHideConflict | crates/refine/src/group_state.rs:90-118 | a concrete group whose reported reason is not the documented one |
| GroupState.RenderableIsSound | crates/refine/src/group_state.rs:74-146 | renderable implies not dissolved, some decided member, and every decided member included and single-arch |
| GroupState.ExcludedIsSound | crates/refine/src/group_state.rs:120-146 | excluded implies the group op excluded it and no decided member is included |
| GroupState.InertIsExact | crates/refine/src/group_state.rs:120-146 | inert exactly when the group is not dissolved and no member name has an unlocked package or a conflict |
| GroupState.ScanGroupOp | crates/refine/src/session.rs:3453-3478 | the backward scan finds the last entry with an op on the group, and inside a batch the first such op |
| GroupState.DivergentMembers | crates/refine/src/session.rs:3480-3504 | the names of members given a contrary direct op after the scanned group op, never cleared by a later reaffirming one |
| GroupState.GroupContext | crates/refine/src/session.rs:3443-3515 | the context handed to the state derivation is the one these scans define |
| GroupLaws.GroupStateIsExact | crates/refine/src/session.rs:3441-3515 | in any reachable state the view shows a group as dissolved exactly when the active timeline dissolves it, else as its members decide in listed order: the first with two unlocked packages or with a later op opposing the counting group op settles it; else none is inert, an exclude with none included is excluded, an excluded member degrades, and the rest render |
| Classify.ClassifyPackages | crates/refine/src/classify.rs:286-370 | the main pass followed by the in-place post-pass, with its two set builders, gives each package its own verdict, in order |
| Classify.UserEnabledServicePackages | crates/refine/src/classify.rs:253-266 | the set is exactly the packages owning a unit enabled against its preset |
| Classify.ModifiedConfigPackages | crates/refine/src/classify.rs:268-284 | the set is exactly the packages owning a modified config file |
| Classify.ClassifiedKeepsIdentity | crates/refine/src/classify.rs:125-251 | classification changes only disposition and lock, and only installer-sourced platform plumbing gains a lock |
| Classify.ClassificationIsStable | crates/refine/src/classify.rs:125-469 | snapshots agreeing on the fields no op and no upload writes give every package the same bucket and reason |
| Classify.EvidenceNeverExcludes | crates/refine/src/classify.rs:190-249 | more evidence for an installer package, or evidence with known gaps, never turns an include into an exclude |
| TriageLaws.TriageIsExact | crates/refine/src/classify.rs:286-469 | bucket and reason of every package the installer's rules do not decide, over the scan alone: suppressed, captured, without a known repo, without a baseline, modified or downgraded, in the baseline, or user-added; only captured ones change disposition |
| TriageLaws.InstallerTriageIsExact | crates/refine/src/classify.rs:125-251 | the same for the packages the installer's rules decide: plumbing excluded and locked, promotion by an enabled unit with a modified file or by a modified file of five names, noise without gaps excluded, and all else included for investigation |
| TriageLaws.PlumbingIsBootChain | crates/refine/src/classify.rs:73-102 | platform plumbing is spelled by four name prefixes |
| TriageLaws.NoiseIsInstallerName | crates/refine/src/classify.rs:77-117 | installer noise is spelled by fourteen name patterns: suffixes, prefixes, and names with an optional dashed tail |
| TriageLaws.EvidenceIsSpelled | crates/refine/src/classify.rs:125-284 | the evidence is complete, degraded, or for a package exactly when units, configs and ownership records say so, in the scan's own terms |
| Normalize.CollectDepTreeNames | crates/refine/src/normalize.rs:88-108 | exactly the names listed as a dependency that are not leaves themselves |
| Normalize.NormalizePackageDefaults | crates/refine/src/normalize.rs:117-182 | the in-place loop gives every package its tier default, then the prevalence gate, then the repo-less gate; `TriageLaws.StartIsExact` says what each comes to |
| Normalize.NormalizedPackageFacts | crates/refine/src/normalize.rs:134-182 | construction leaves every package actionable, keeps its identity, excludes repo-less and partially prevalent ones, and locks installer plumbing only |
| TriageLaws.StartIsExact | crates/refine/src/normalize.rs:117-182 | where every package starts: excluded when repo-less or not on all hosts; as the installer's rules decided; else included exactly when the baseline has it, or it is a site package and a leaf no other leaf depends on |
| Normalize.ClassifyConfigs | crates/refine/src/classify.rs:471-535 | a config's bucket follows its kind, except that an unresolved hint sends the first file at its path to investigation |
| Normalize.NormalizeConfigDefaults | crates/refine/src/normalize.rs:322-370 | the in-place loop over configs gives the normalized list whose every entry `Normalize.NormalizedConfigFacts` describes |
| Normalize.NormalizedConfigFacts | crates/refine/src/normalize.rs:322-370 | construction keeps a config's identity; only the tool's own repo file gains a lock and it is excluded; advisories and inventory come back unchanged; any other file starts included exactly when it is hinted, modified by hand or owned by nothing |
| TriageLaws.ConfigStartIsExact | crates/refine/src/normalize.rs:311-370 | the same with the tool's own repo file and the hinted file spelled out, as one equation for every config |
| TriageLaws.ToolRepoFileIsSpelled | crates/refine/src/normalize.rs:311-320 | the tool's own repo file is one under the yum directory whose last segment starts with `_copr` and holds the tool's name |
| TriageLaws.ConstructionKeepsTheRest | crates/refine/src/session.rs:495-529 | construction excludes the tool's own repo files and no other, keeps the scan's rows in front, and leaves keys, drop-ins, groups and facts alone |
| Normalize.SynthesizeOrphanShadows | crates/refine/src/classify.rs:548-595 | appends rows for orphan full-shadow units, drop-in by drop-in |
| Normalize.SyntheticRowFacts | crates/refine/src/classify.rs:548-595 | every orphan unit gets a row, no unit with a row gets another, and rows appear exactly when there is an orphan |
| TriageLaws.SyntheticRowsAreExact | crates/refine/src/classify.rs:548-595 | the synthesized rows are, in drop-in order, one for each full-shadow drop-in of a unit without a row and with a known enable state: disabled if listed so, else enabled, included, unlocked and owned by nobody |
| Normalize.InstallerNoiseIs | crates/refine/src/classify.rs:146-235 | the classifier calls a package installer noise exactly when it is installer-sourced with a noise name, no plumbing, new against the baseline, with complete and undegraded evidence that does not promote it |
| Normalize.SynthesisShiftsClassification | crates/refine/src/session.rs:514-529 | a package's triage in the session differs from the one its default was chosen by if and only if it is such noise and some row was synthesized; it then needs investigation with evidence unavailable |
| Normalize.SynthesisCanShift | crates/refine/src/session.rs:514-529 | a concrete scan of one package and one orphan unit on which it does |
| Views.CanonicalIdInjective | crates/refine/src/session.rs:73-75 | `name.arch` names one package when arches have no dots |
| Views.RestoreDecisions | crates/refine/src/session.rs:3137-3148 | the loop puts every projected decision and lock back over the classifier's |
| Views.WriteBack | crates/refine/src/session.rs:3374-3391 | the detour through a map keyed by `name.arch` leaves every projected package as it was |
| Views.CountRepos | crates/refine/src/session.rs:3402-3439 | the counts built up package by package equal a fresh count for every repo id |
| Views.GroupStates | crates/refine/src/session.rs:3441-3515 | every group name gets the state derived for the last group of that name |
| Views.FilterPackages | crates/refine/src/session.rs:3276-3372 | the three filters in sequence keep exactly the packages that pass all three conditions, in order; `ViewLaws.ShownIsExact` spells the conditions out |
| Views.RecomputeView | crates/refine/src/session.rs:3128-3582 | packages shown, repo counts, group states, generation and undo/redo flags are those the current state defines; the laws below and `GroupLaws.GroupStateIsExact` say which those are |
| ViewLaws.ShownIsExact | crates/refine/src/session.rs:3218-3372 | a package shows if and only if it is no plumbing, is not suppressed, is or was included or needs investigation, and, where leaf data exists, is a leaf, needs investigation, has changed, or belongs to a dissolved group |
| ViewLaws.ShownInOrder | crates/refine/src/session.rs:3218-3372 | nothing but packages of the session shows, each at most once and in their order |
| ViewLaws.UnlistedIsExact | crates/refine/src/session.rs:3392-3439 | a repo's unlisted count is the number of its unlocked packages that the view leaves out |
| ViewLaws.FlagsAreExact | crates/refine/src/session.rs:3568-3580 | undo and redo are offered exactly when they would be done; the view carries the generation and the number of active entries |
| Session.RefineSession.constructor | crates/refine/src/session.rs:495-665 | a fresh session holds the normalized snapshot, the index of the scan, an empty timeline, and a view of that state |
| Session.RefineSession.ValidateTarget | crates/refine/src/session.rs:1985-2193 | rejects exactly unknown targets, advisories, inventory, distro and unverified repos, and drop-in includes under an excluded parent |
| SessionLaws.KnownTargetsPass | crates/refine/src/session.rs:1985-2193 | a package, service or group op passes exactly when the scan has its target |
| SessionLaws.ConfigTargetsPass | crates/refine/src/session.rs:2003-2029 | a config op passes exactly when the first file at its path is actionable; unknown path, advisory and inventory are told apart |
| SessionLaws.DropInTargetsPass | crates/refine/src/session.rs:2057-2108 | a drop-in op is refused exactly when its path is unknown, or when it includes and some row of the drop-in's unit is now excluded |
| SessionLaws.RepoTargetsPass | crates/refine/src/session.rs:2030-2045 | a repo op passes exactly when the section is not the distribution's own and is verified or incomplete |
| Session.RefineSession.CheckGroupNoop | crates/refine/src/session.rs:2521-2574 | refuses exactly when no effective member of the group would change |
| Session.RefineSession.CheckRepoNoop | crates/refine/src/session.rs:2578-2616 | refuses by the cached counts, exactly when no effective package of the repo would change |
| Session.RepoCountsDecide | crates/refine/src/session.rs:2578-2616 | the cached counts and a fresh look at the projection give the same answer |
| Session.RefineSession.Apply | crates/refine/src/session.rs:1355-1413 | validation, lock skip, group and repo refusal, silent no-op, or one recorded entry, in that order; nothing else changes and the view is fresh; the laws below and `Noops` say when each happens |
| SessionLaws.PackageOpIsExact | crates/refine/src/session.rs:1355-1413 | a validated package op leaves the session as it is if and only if recording it would change no package's or config's include state; otherwise one entry is recorded and every package of that name and arch projects to the value asked for |
| SessionLaws.ConfigOpIsExact | crates/refine/src/session.rs:2437-2460 | the same for a validated config op and the first file at its path |
| SessionLaws.ServiceOpsAreRecorded | crates/refine/src/session.rs:1396-1413 | a validated service or drop-in op is recorded unless it includes a locked target; it is never dropped as a no-op |
| SessionLaws.SkippedIsSpelled | crates/refine/src/session.rs:285-357 | an op is skipped exactly when it includes and the first item it names is locked in the session's own snapshot |
| Session.RefineSession.ApplyDirective | crates/refine/src/session.rs:1419-1448 | an unknown group is refused, a dissolved one ignored, any other recorded |
| SessionLaws.DirectiveIsExact | crates/refine/src/session.rs:1419-1448 | refused for an unknown group name, ignored while an active entry dissolves it, recorded otherwise |
| Session.RefineSession.ApplyBatch | crates/refine/src/session.rs:1453-1484 | one entry with every op except includes of locked targets; an empty batch changes nothing |
| SessionLaws.BatchIsExact | crates/refine/src/session.rs:1453-1484 | one entry with the ops in order less the includes of items whose first match is locked; nothing at all if none is left |
| Session.RefineSession.Undo | crates/refine/src/session.rs:1486-1498 | steps back or reports there is nothing to undo |
| Session.RefineSession.Redo | crates/refine/src/session.rs:1500-1514 | steps forward or reports there is nothing to redo |
| Session.RefineSession.Reset | crates/refine/src/session.rs:1516-1529 | empties the timeline, or reports there is nothing to undo |
| Session.RefineSession.SetUploaded | crates/refine/src/session.rs:1120-1167 | records a staged file on the one package named, and what its first upload displaced |
| SessionLaws.UploadIsExact | crates/refine/src/session.rs:1120-1167 | the named package carries the staged path and version, cached and uploaded, all else as it was; no other package changes; and only the first upload over a host-cached RPM remembers the fields it displaces |
| SessionLaws.UnknownUploadIsIgnored | crates/refine/src/session.rs:1120-1167 | an upload under a name no package carries changes the generation only |
| Session.RefineSession.UnmarkUploaded | crates/refine/src/session.rs:1244-1311 | the four removal outcomes, and on success the displaced fields restored and forgotten |
| SessionLaws.RemovalIsExact | crates/refine/src/session.rs:1244-1311 | which of the four outcomes a removal has, over the package's own flags; only a removal changes anything, giving back the remembered fields or clearing them, and no other package |
| SessionLaws.UnknownRemovalIsNotFound | crates/refine/src/session.rs:1244-1311 | removal for a package the scan does not have is not found and changes nothing |
| Session.RefineSession.MatchUploadedRpm | crates/refine/src/session.rs:1043-1110 | the match is the one `UploadMatch.MatchUploadedRpm` defines, and nothing changes |
| Session.RefineSession.ExportPlan | crates/refine/src/session.rs:1948-1981 | a plan is given exactly for the current generation, and it is the current projection |
| Runs.RunStaysWellFormed | crates/refine/src/session.rs:1355-1529 | every state a run reaches is well formed: cursor inside the timeline, packages unique and actionable, index in step |
| Runs.RunKeepsOriginal | crates/refine/src/session.rs:1139-1182 | no run changes the original beyond the cache fields of its packages |
| Runs.GenerationIdentifiesState | crates/refine/src/session.rs:1176-1182 | equal generations at two moments of a run mean equal timeline, cursor and original |
| Runs.ExportMatchesView | crates/refine/src/session.rs:1948-1981 | an export asked for with the generation of a seen view exports exactly the projection that view showed |
| Runs.StepIsEditorStep | crates/refine/src/session.rs:1355-1529 | every call is a step of a past/future two-stack editor; recording drops the future |
| Runs.UndoRedoAreEditorSteps | crates/refine/src/session.rs:1486-1514 | undo and redo move one entry between the two stacks |
| Runs.UndosThenRedos | crates/refine/src/session.rs:1486-1514 | k undos then k redos change nothing but the generation, which grows by 2k |
| Runs.UndoRestoresProjection | crates/refine/src/session.rs:1486-1529 | one undo brings back the projection from before a recorded call; reset gives the replay of nothing |
| Runs.RunRecords | crates/refine/src/session.rs:1371-1468 | from a fresh session no run records an include of a directly locked item, single or batched, and no group is dissolved twice in one timeline |
| Safety.AppendEntry | crates/refine/src/session.rs:2644-2672 | what one more recorded entry does to the projected disposition of any slot outside the repo cascade |
| Safety.RunIsSafe | crates/refine/src/session.rs:2057-2107 | from a safe start, every run without batches keeps: at every cursor position, redo tail included, no included drop-in belongs to a unit with an excluded row |
| Safety.BatchSafetyIsExact | crates/refine/src/session.rs:1453-1484 | a batch keeps that rule if and only if each drop-in it finally includes would have passed the single-op check in its turn |
| Safety.BatchCanBreakTheRule | crates/refine/src/session.rs:1453-1484 | a concrete batch that breaks the rule from a state that met it everywhere |
| Noops.NoopRefusalIsExact | crates/refine/src/session.rs:2521-2616 | a validated group or repo op is refused if and only if recording it would leave every projected package's include state unchanged |
| Noops.AcceptedOpSettles | crates/refine/src/session.rs:1371-1395 | an accepted one changes an effective member, leaves all of them at the requested value, and is refused when repeated at once |
| ViewFacts.NoHiddenChange | crates/refine/src/session.rs:3276-3372 | a package whose include state differs from the session's start, or which needs investigation, is in the view unless it is plumbing or baseline-suppressed |
| ViewFacts.RunHidesNoChange | crates/refine/src/session.rs:3218-3372 | the same across any run: changes against the decisions the session was built with, and packages needing investigation, are in the view |
| ViewFacts.RunKeepsClassification | crates/refine/src/session.rs:3128-3148 | every package keeps its bucket and reason through any run, uploads included |
| ViewFacts.CachedCountsAreFresh | crates/refine/src/session.rs:3374-3439 | a repo's cached counts are the number of unlocked packages attributed to it and of those the projection includes |
| ViewFacts.GroupStateIsSound | crates/refine/src/session.rs:3443-3515 | in any reachable state a renderable group is not dissolved, has an effective member, and all are included and single-arch; an excluded one was excluded by the scanned op and has none included |
| Uploads.RunKeepsRestorable | crates/refine/src/session.rs:1139-1182 | through any run a package not uploaded at the start either carries an upload that removal will exchange for what it displaced, or its starting or displaced fields |
| Uploads.UploadsAreUndone | crates/refine/src/session.rs:1244-1311 | a successful removal after any run gives back the cache fields from before the first upload if and only if the host had cached the RPM or the fields were empty |
| Uploads.UploadCanLoseCache | crates/refine/src/session.rs:1244-1311 | a concrete two-call run on a package that is not cached but carries a cache path, which it loses |
| Uploads.RunRemembersUploadsOnly | crates/refine/src/session.rs:1139-1167 | displaced fields are remembered only for packages now uploaded |
| Uploads.UploadsKeepDecisions | crates/refine/src/session.rs:1139-1182 | uploads commute with the timeline: no projected include and no lock changes, for any slot and timeline |
| Calendar.YearOfEraIs | crates/collect/src/baseline.rs:323-330 | the year-of-era quotient is the year the 400-, 100-, 4- and 1-year blocks of the day give |
| Calendar.DateIsRight | crates/collect/src/baseline.rs:323-336 | every day count gives a valid Gregorian date whose independently counted day number is that count |
| Calendar.EveryDateIsReached | crates/collect/src/baseline.rs:323-336 | and every valid date from 1970 on is the date of its day number |
| Calendar.DatesAreMonotone | crates/collect/src/baseline.rs:323-336 | later days give later dates |
| Calendar.UtcFieldsRecompose | crates/collect/src/baseline.rs:302-320 | the fields of a timestamp are in range and put the input seconds back together |
| Calendar.NoOverflow | crates/collect/src/baseline.rs:323-336 | for every 64-bit second count each intermediate of the day arithmetic is natural and stays inside signed 64 bits, so no subtraction underflows and no product wraps |
| Redaction.SpanIsExact | crates/core/src/redaction.rs:70-120 | in all four syntaxes a span is returned if and only if only whitespace, at most one separator and an opening quote stand between the key's end and it, and it ends where the value does |
| Redaction.QuotedRunIsExact | crates/core/src/redaction.rs:38-48 | a quoted run is found exactly when whitespace leads to a quote that closes, and the span is what it encloses |
| Redaction.FindsWhatWasPrinted | crates/core/src/redaction.rs:70-120 | printing key, separator, whitespace and value and then looking from the key's end finds exactly that value |
| Scrubber.ScrubsAssignments | crates/core/src/redaction.rs:257-315 | a printed assignment line is scrubbed by replacing its value and nothing before it |
| Scrubber.ScrubLineIsExact | crates/core/src/redaction.rs:257-315 | a line is an assignment's text and scrubbed as one, or it is none and comes back unchanged |
| Scrubber.ScrubLineTwice | crates/core/src/redaction.rs:257-315 | scrubbing a line twice is scrubbing it once |
| Scrubber.SecretValuesDoNotShow | crates/core/src/redaction.rs:291-315 | two lines differing in the plain value of a secret-named assignment scrub to one line; `Secrets.SecretWordsAreSpelled` says which names are secret |
| Secrets.AssignmentLineIsExact | crates/core/src/redaction.rs:257-315 | every assignment line keeps what stands before its value; URL credentials become `<REDACTED>:<REDACTED>`; any other value becomes `<REDACTED>` exactly when the trimmed line holds one of the eight words in any case; otherwise the line comes back unchanged |
| Secrets.SecretKeyIsMasked | crates/core/src/redaction.rs:291-315 | a key that holds one of the eight words, in any case, hides its value |
| Secrets.OtherLinesStay | crates/core/src/redaction.rs:257-315 | a line that is the text of no assignment comes back unchanged |
| Secrets.SecretWordsAreSpelled | crates/core/src/redaction.rs:170-182 | the eight words, letter by letter |
| Secrets.AssignmentIsSpelled | crates/core/src/redaction.rs:184-227 | which lines are assignments, character by character |
| Secrets.CredentialsAreSpelled | crates/core/src/redaction.rs:229-254 | a value has URL credentials exactly when a colon stands between its first `://` and the first `@` after it |
| Scrubber.UrlCredentialsDoNotShow | crates/core/src/redaction.rs:229-254 | two lines of one layout whose URL values differ only between the scheme and the first `@` scrub to one line |
| Scrubber.UrlLinesScrubAlike | crates/core/src/redaction.rs:229-254 | and two lines of one layout with URL credentials scrub alike if and only if their values have the same scheme and agree from the first `@` on |
| Scrubber.UrlComesApart | crates/core/src/redaction.rs:229-254 | every value with URL credentials comes apart at its first `://` and the first `@` after it, so the two rows above are about all of them |
| Scrubber.RawAtSignShows | crates/core/src/redaction.rs:244-254 | the concrete URL whose password holds an `@`, and what is left of it |
| Compose.ScrubComposeSecrets | crates/core/src/redaction.rs:256-321 | the loop over lines scrubs each of them, and what that does to a line is `Secrets.AssignmentLineIsExact` and `Secrets.OtherLinesStay` |
| Compose.PiecesReadBack | crates/core/src/redaction.rs:257-320 | taking any text apart at its newlines loses nothing: the pieces rebuild it and an unfinished last one is not empty |
| Compose.LinesArePieces | crates/core/src/redaction.rs:257 | the lines of any text are those pieces, less one carriage return before each newline |
| Compose.ScrubKeepsLines | crates/core/src/redaction.rs:256-321 | for every text: between the newlines of the scrubbed file stand the file's lines, each scrubbed, and it ends in a newline exactly when the file did |
| Compose.ScrubTwiceIsExact | crates/core/src/redaction.rs:256-321 | for every text: scrubbing twice is scrubbing once if and only if no line before a newline still ends in a carriage return after one is stripped, unless its value is replaced |
| Compose.OrdinaryFilesSettle | crates/core/src/redaction.rs:256-321 | so any file without two carriage returns before a newline settles at the first pass |
| Compose.ScrubKeepsNewlines | crates/core/src/redaction.rs:256-321 | for every text no newline is added or dropped |
| Compose.SecretsDoNotInterfere | crates/core/src/redaction.rs:170-321 | files that differ line by line only in what should be hidden scrub to one file |
| Compose.CarriageReturnsShrink | crates/core/src/redaction.rs:256-259 | a text with carriage returns that scrubbing twice changes again |
| RpmFilename.ParseUntrusted | crates/core/src/rpm_filename.rs:78-135 | the result is the one reading of the filename as name, optional version-release, arch and suffix, and none exactly when there is no reading |
| RpmFilename.NevraIsUnambiguous | crates/refine/src/session.rs:1051-1056 | `name-version-release.arch.rpm` comes apart in one way when version and release have no dash and the arch no dot |
| RpmFilename.NevraReadsBack | crates/core/src/rpm_filename.rs:78-135 | how such a filename of a known arch reads when the name has no dash before a digit: as its own fields if the version starts with a digit, else the name swallows the version, and the release unless that starts with one |
| RpmFilename.NevraNameIsCut | crates/core/src/rpm_filename.rs:105-112 | a name with a dash before a digit is cut there |
| RpmFilename.ValidateStagedName | crates/core/src/rpm_filename.rs:186-208 | accepts exactly the documented allowlist; each error names its cause and a bad byte is reported where it first occurs |
| RpmFilename.StagedNameIsPlain | crates/core/src/rpm_filename.rs:168-208 | an accepted name has at least five bytes, no slash and no NUL, and starts with neither dot nor dash |
| RpmFilename.StagedNameIsExact | crates/core/src/rpm_filename.rs:150-208 | the allowlist in characters: five to 200 of letters, digits and six marks, a letter or digit first, and the suffix in any case |
| RpmFilename.KnownArchesAre | crates/core/src/rpm_filename.rs:40-43 | the nine arches a filename is read with |
| UploadMatch.Candidates | crates/refine/src/session.rs:1076-1085 | the candidate list is exactly the dash prefixes of the name, longest first |
| UploadMatch.MatchUploadedRpm | crates/refine/src/session.rs:1043-1110 | an exact filename decides first; otherwise the longest dash prefix that names a repo-less package of the arch read from the file; otherwise nothing |
| UploadMatch.OwnFilenameIsExact | crates/refine/src/session.rs:1047-1064 | a repo-less package's own filename always matches that package, as exact |
| UploadMatch.OtherVersionIsExact | crates/refine/src/session.rs:1076-1106 | a file of another version of a repo-less package matches that package if and only if its arch is known, its name has no dash before a digit and, where the version does not start with a digit, no repo-less package carries a name that swallows it; then the version read from the file is reported, and the file counts as exact if none was read |
| UploadMatch.DottedNameIsLost | crates/refine/src/session.rs:1076-1106 | a concrete package with a dash before a digit in its name that a file of its next version does not find |
| UploadMatch.LetterVersionIsTakenForTheHosts | crates/refine/src/session.rs:1087-1106 | a concrete file whose lettered version is taken for the one the host has |
| UploadMatch.MatchNamesItsPackage | crates/refine/src/session.rs:1139-1150 | recording an upload under the name a match gives finds the very package that matched |
| RpmStates.ExtractRpmState | crates/pipeline/src/collect.rs:458-504 | the in-place extraction replaces the lists and grows the owned paths and path index by the ownership entries in order |
| RpmStates.IndexedPathsAreOwned | crates/pipeline/src/collect.rs:479-492 | every indexed path is an owned `/etc` path, its index is in range, and the package there is a listed owner |
| RpmStates.ExtractedIsExact | crates/pipeline/src/collect.rs:458-504 | what extraction leaves: packages, streams and names as listed, every listed `/etc` path added to the owned ones, and each verification result without a package given the last owner listed for its path |
| RpmStates.PathIndexIsExact | crates/pipeline/src/collect.rs:479-492 | an `/etc` path leads to the last installed package whose record lists it, at that package's last place |
| RpmStates.OwnersAgree | crates/pipeline/src/collect.rs:479-502 | the path index and the owner written on verification results name the same package if and only if that owner is installed |
| RpmStates.OwnersCanDisagree | crates/pipeline/src/collect.rs:479-502 | two concrete ownership entries on which they do not |
| Collect.Collector.Admit | crates/pipeline/src/collect.rs:44-100 | inspectors that apply are split into the two waves in order; each other one leaves one remark |
| Collect.RefusalsAreExact | crates/pipeline/src/collect.rs:44-100 | one remark for each inspector that does not apply, naming it and the kind of source, in list order |
| Collect.Collector.HandleResult | crates/pipeline/src/collect.rs:346-450 | all five join results: section, warnings, hints, failed and degraded lists, and RPM facts exactly when the RPM inspector brought RPM data; the rows below say what each comes to over any list of joins |
| Collect.Collector.CollectInOrder | crates/pipeline/src/collect.rs:106-205 | running both waves in list order leaves the fold of the join results and the completeness it implies |
| Collect.ListsInOrder | crates/pipeline/src/collect.rs:395-445 | the failed and degraded lists are the ids of the joins with that outcome, in list order |
| Collect.HintsAndWarningsInOrder | crates/pipeline/src/collect.rs:346-450 | hints are those of every complete or degraded output, and warnings each output's own and then the one remark its result calls for with its severity, in list order; none is lost |
| Collect.RpmDataIsKept | crates/pipeline/src/collect.rs:458-536 | the RPM section is the last one brought, and the RPM facts are extracted from the data of the RPM inspector |
| Collect.ReportListsTheUnclean | crates/pipeline/src/collect.rs:189-205 | a partial report lists who degraded, an incomplete one also who failed, in list order |
| Collect.LastSectionWins | crates/pipeline/src/collect.rs:521-536 | each section is the one the last join that brought it had |
| Collect.UnbroughtSectionStays | crates/pipeline/src/collect.rs:521-536 | a section no join brought is as it was |
| Collect.ContextIsExact | crates/pipeline/src/collect.rs:102-147 | RPM facts are available exactly when the RPM inspector, complete or degraded, brought RPM data |
| Collect.CompleteMeansCleanJoins | crates/pipeline/src/collect.rs:189-205 | complete exactly when no joined inspector failed, panicked or degraded; incomplete exactly when one failed or panicked |
| Waves.EveryScheduleKeeps | crates/pipeline/src/collect.rs:106-187 | the invariant over every schedule: who may be where, what has been folded in, and what second-wave threads read |
| Waves.InterleavingDoesNotShow | crates/pipeline/src/collect.rs:106-187 | however threads interleave, a finished run leaves what the run in list order leaves |
| Waves.FinishedRunKeepsAll | crates/pipeline/src/collect.rs:106-187 | and has every hint and warning, and every failure and degradation, of the first wave and the started part of the second, in list order |
| Waves.UncancelledRunsAgree | crates/pipeline/src/collect.rs:106-187 | any two finished runs without cancellation leave the same findings |
| Waves.SecondWaveWaits | crates/pipeline/src/collect.rs:135-187 | no second-wave thread exists before all of the first wave is joined; those spawned are a prefix; each reads RPM facts exactly when the first wave brought RPM data |
| Waves.CompletenessIsOfTheStarted | crates/pipeline/src/collect.rs:189-205 | complete exactly when every inspector that was started came back complete or skipped |
| Waves.CancelledRunCanBeComplete | crates/pipeline/src/collect.rs:182-193 | a run that left an inspector unstarted and is reported complete |
| Schedules.StartedIsExact | crates/pipeline/src/collect.rs:135-172 | a finished run started exactly the second-wave inspectors whose turn came before the cancel flag went up, counted in moves of the collecting thread; all of them if and only if the flag came too late |
| Schedules.CompleteReportIsExact | crates/pipeline/src/collect.rs:135-205 | every admitted inspector ran and came back clean if and only if the report is complete and the schedule starts everyone |
| Schedules.OutcomeIsOfTheSchedule | crates/pipeline/src/collect.rs:106-187 | the findings of a finished run are settled by the plan and by when the flag went up |
| WaveLog.LogIsExact | crates/pipeline/src/collect.rs:108-187 | every first-wave finish stands before every second-wave start; at the end each spawned inspector has exactly one start and one finish event, in that order, and no other has any |
| WaveLog.RunsAreBounded | crates/pipeline/src/collect.rs:106-187 | no schedule is longer than five moves an inspector plus six |
| WaveLog.NeverStuck | crates/pipeline/src/collect.rs:106-187 | a run that is not over can always go on without outside help |

## Left out

- Aggregate sessions (several hosts): prevalence zones, bucket scoring and the config prevalence gate; sessions here are of one host.
- Absent snapshot sections are empty lists, with two presence bits kept where classification asks for them.
- Variant, user, password and pin ops, and their effects on the projection.
- Item kinds beyond packages, repos, configs, services, drop-ins and groups (quadlets, flatpaks, sysctls, tuned, fstab and others): `UnreplayedItem` stands for a kind that is accepted and recorded and changes nothing modelled.
- `materialize_variants` and `demote_unserved_repo_enabling` run after the replay and touch no disposition modelled here.
- `normalize_language_env_defaults`, and the sysctl, tuned and container classifiers.
- `is_sensitive_path` annotations on triage tags: they change neither bucket nor reason.
- Autosave, resume and the sidecar format, and the `viewed` set.
- The upload directory: `fileOk` stands for a staged path that resolved inside it and a file that is gone; rescans, verification of staged uploads and copying are not part of this model.
- Containerfile and config-tree rendering, statistics, decision and reference projections, and export file writing; a plan here is the projection it carries.
- `verified_uploads` of the render context.
- The 64-bit width of `generation`: it is a natural number here, so it never wraps.
- Repo file text: files carry their parsed sections; the section parser is not part of this model.
- Full Unicode: text is ASCII, repo ids fold ASCII case, and a character of a filename stands for a byte.
- Session.RefineSession.constructor: requires unique (name, arch) pairs and arches without dots, which the original's first-match lookups and `name.arch` keys presuppose without a check.
- Safety.RunIsSafe: for runs without batches and from a start that meets the rule; `Safety.BatchSafetyIsExact` covers batches.
- UploadMatch.OwnFilenameIsExact: supposes packages spelled by RPM's rules, no dash in version or release and no dot in the arch.
- UploadMatch.OtherVersionIsExact: supposes the same of the packages and of the file's version and release.
- RpmStates.OwnersAgree: paths are taken as normalized; the original keys two of its maps by path, where doubled and trailing slashes do not count, and one by text.
- Collection: packages are reduced to names, sections other than RPM to their text, and neither inspectors' own progress events nor the skip events of those that do not apply are logged.
- Collect.Collector.CollectInOrder: takes the number of second-wave inspectors to run as a parameter; when cancellation cuts the wave short is the business of `Waves`.
- Host identity and metadata written after the waves, and `finalize_cross_inspector`, which marks config entries shadowed by other sections.
- `base image` resolution, image reference normalization, schema gates, the web, UI and command-line layers, and everything that runs other programs.
