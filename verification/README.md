# Verification of sakimori's decision logic

This Dafny project models the parts of sakimori whose correctness is easy to get
subtly wrong, and proves what each is for:

- the CODEOWNERS path matcher and the two `*` globbers (`Glob`, `Codeowners`, `EnvPolicy`);
- the capped event sample buffer (`Stats`);
- workspace snapshots and their diff (`Tamper`);
- the npm install-script inspector and stripper (`Lifecycle`);
- the sparse-index filter and the age decider (`SparseIndex`, `Decider`);
- the bounded edit distance and the search for typosquatted names (`Typosquat`);
- the live OSV cache under concurrent lookups (`Osv`), the ETag-gated mirror
  (`OsvMirror`), and the publish-time caches (`PublishCache`);
- the batched advisory scan (`Advisories`), the npm and PyPI URL parsers (`Parser`),
  and UTF-8 truncation (`HubIngest`).

`Basics`, `Ecosystems`, `Text`, `Sequences` and `Order` hold shared types and the
string, sequence and sorting operations the code takes from its standard library.

`dafny verify dfyconfig.toml` checks the whole project.

## How the source is modelled

Loops and updates in place are methods, and objects are classes; each method is
proved against a specification, and the theorems are about that specification. Runs
of a system (`Osv.IsRun`, `OsvMirror.IsRun`, `PublishCache.IsRunOf`, `Stats.Run`) are
sequences of states built from the same functions the methods are proved against.

The network, clocks and codecs are parameters: a fetch is a step that observes a
function of time, JSON and tar are already decoded, and a hash, a JSON printer or an
archive writer is a function. What a theorem needs of one is a hypothesis about the
values at hand: that the one JSON value written is read back (`Lifecycle.ReadsBack`),
that two decoders agree on one text where both accept it (`Lifecycle.DecodersAgreeOn`).
Of a hash nothing is assumed: collisions appear in the conclusions. Strings are sequences of
characters; searching for ASCII separators gives the same result on characters as on
UTF-8 bytes.

## Where the code and its own words differ

The model follows the code in each case.

- A directory pattern that also describes the whole path, such as one whose `**`
  swallows everything, covers nothing below the directory
  (`Codeowners.DirectoryPatternExactly`, `Codeowners.StarStarDirectoryCoversNothing`). The
  pattern `**` on its own is a floating pattern, although a comment at
  `codeowners.rs:231-233` says that cannot happen; it covers every path
  (`Codeowners.LoneStarStar`).
- The OSV module says positive results never expire. They are never timed out, but a
  slow negative answer can overwrite one, and that is the only way to lose it
  (`Osv.PositiveCanBeLost`, `Osv.PositiveLostExactly`).
- The inspector decodes `package.json` into a record and the stripper into a value, and
  the decoders accept different texts. The record decoder also accepts an array of the
  fields, and skips fields it does not know without checking number range, surrogates
  or nesting; such files are reported but not stripped
  (`Lifecycle.ReportedButUnchanged`, which gives the exact condition, with two inputs in
  `Lifecycle.ArrayPackageJsonUnchanged` and `Lifecycle.OutOfRangePackageJsonUnchanged`).
  The other way round, a repeated `scripts` key is refused by the record decoder only, so
  such a file is stripped but not reported (`Lifecycle.RepeatedScriptsUnreported`; exactly
  when: `Lifecycle.StrippedButUnreported`).
- Which entry is the root `package.json` is decided by its path as read, while the archive
  writer drops a leading `.` of a path that fits the header. So `./package/package.json` is no root before stripping and
  one after it, and a stripped tarball can still be reported
  (`Lifecycle.StrippedStillReports`; exactly when: `Lifecycle.StrippedInspectsClean` and
  `Lifecycle.RootsKeptExactly`).
- A symlink's target is recorded after a lossy decoding, so retargeting between two paths
  that decode alike goes unseen (`Tamper.RetargetingUnseen`). An oversized file rewritten
  at the same length does too, as its documentation says.
- Because size stands in for a missing hash, "clean" is not transitive; it is so exactly
  through snapshots that hash every file (`Tamper.CleanTransitiveExactly`).
- The layered oracle is described as falling back for packages the mirror has not
  synced yet; a mirror that answers is always believed (`OsvMirror.FallbackHeardExactly`).
- A dump row that names a version without ids hides the row for all versions
  (`OsvMirror.FlaggedExactly`).
- `Snapshot.unreadable` is documented as letting the diff tell a missing file from one
  never seen; the diff does not read it, so a file that becomes unreadable is reported
  as removed (`Tamper.UnreadableIsReportedRemoved`; exactly when removals are real:
  `Tamper.RemovalsAreReal`).
- `normalize_name` cites PEP 503 but drops separators at either end of a name
  (`PublishCache.LeadingDashVanishes`); it follows the rule exactly on names without them
  (`PublishCache.NormalizedIsPep503Exactly`).
- A minimum age beyond the time library's range silently becomes zero
  (`Decider.MinAgeAppliedExactly`).
- The mirror's refresh expects a 304 as a status error. A client that returns it as an
  ordinary response makes the refresh report an error for its empty body; the table and
  tag are right all the same (`OsvMirror.ConditionalEqualsUnconditional`).
- The typosquat baseline is documented as the fallback for ecosystems the mirror has no
  entries for; it is also used when the mirror's entries give nothing
  (`Typosquat.SilentMirrorFallsBack`; exactly when it matters:
  `Typosquat.DocumentedFallbackExactly`).
- The advisory scan is documented as keeping a package's latest mode; unless one install
  was ephemeral, it keeps the first (`Advisories.FirstModeKept`; the two agree exactly
  under the condition of `Advisories.LatestModeKeptExactly`).

## Model

| member | source | states |
|---|---|---|
| Glob.MatchesIffFilled | crates/sakimori-core/src/policy.rs:151-155 | The language both globbers must accept: a string matches exactly when it is the pattern with each star replaced by some string |
| Glob.SegmentMatches | crates/sakimori-core/src/codeowners.rs:279-308 | The leftmost-greedy segment globber accepts exactly that language, on every pattern and string |
| Glob.GlobMatch | crates/sakimori-core/src/policy.rs:156-189 | The cursor-based environment globber accepts exactly the same language, so the two implementations agree everywhere |
| Glob.LeftmostSuffices | crates/sakimori-core/src/codeowners.rs:300-305 | Greedy choice is complete: if the remaining pieces match anywhere, they match after the leftmost occurrence of the next piece |
| Codeowners.LaterStartReachesAsFar | crates/sakimori-core/src/codeowners.rs:258-267 | Exchange lemma: a pattern that matches from `p0` and from a later `p1` can end at least as far from `p1` |
| Codeowners.MatchPrefix | crates/sakimori-core/src/codeowners.rs:254-276 | The single count returned is the longest prefix any choice of `**` lengths can match, and `None` means no prefix matches |
| Codeowners.TrailingStarStar | crates/sakimori-core/src/codeowners.rs:222-225 | A pattern ending in `**` that matches some prefix matches the whole path, so the extra disjunct for it is redundant |
| Codeowners.PatternMatches | crates/sakimori-core/src/codeowners.rs:192-249 | A rule pattern is decided by whole-path membership (file patterns), by a longest match that leaves a segment (directory patterns), at the root or at some offset when floating |
| Codeowners.ShapeMeans | crates/sakimori-core/src/codeowners.rs:198-211 | How any pattern is read: the segments joined are the pattern without the slashes at either end, a slash at the end makes it a directory, and it is anchored exactly when something other than slashes comes after some slash |
| Codeowners.CoversByCore | crates/sakimori-core/src/codeowners.rs:192-249 | On pattern strings: a pattern covers what the segments between its outer slashes do, from the root if a slash leads or separates them and at any offset otherwise, as a directory if one trails |
| Codeowners.LeadingSlashAnchors | crates/sakimori-core/src/codeowners.rs:207-209 | A file pattern with a leading slash covers a path exactly when its segments derive the whole path from the root |
| Codeowners.CoversTrimmed | crates/sakimori-core/src/codeowners.rs:192-200 | Spaces around a pattern do not count, a blank pattern covers nothing, and a bare star everything |
| Codeowners.CoversAtRoot | crates/sakimori-core/src/codeowners.rs:211-228 | The anchored branch meets that specification |
| Codeowners.CoversSomewhere | crates/sakimori-core/src/codeowners.rs:230-248 | The floating branch accepts exactly when some start offset does |
| Codeowners.DirectoryPatternExactly | crates/sakimori-core/src/codeowners.rs:214-220 | A directory pattern covers a path exactly when some proper prefix is the directory and the pattern does not describe the whole path |
| Codeowners.DirectoryPatternWithoutStarStar | crates/sakimori-core/src/codeowners.rs:180-185 | Without `**`, directory patterns mean what the documentation says: something below a matching directory |
| Codeowners.StarStarDirectoryRejected | crates/sakimori-core/src/codeowners.rs:216-220 | The failing family: a literal segment followed by a `**` directory never covers a file below it |
| Codeowners.StarStarDirectoryCoversNothing | crates/sakimori-core/src/codeowners.rs:192-228 | The same on pattern strings, parsed as the code does: such a pattern covers no file below the directory it names |
| Codeowners.LoneStarStar | crates/sakimori-core/src/codeowners.rs:229-247 | A double star alone is a floating pattern that covers every path, and none with a trailing slash |
| Codeowners.FloatingPattern | crates/sakimori-core/src/codeowners.rs:229-247 | A floating name matches as a file only on the last segment, as a directory only on an earlier one |
| Codeowners.FirstOwningRule | crates/sakimori-core/src/codeowners.rs:128-133 | The search returns the specified first owning rule |
| Codeowners.FirstOwningSpec | crates/sakimori-core/src/codeowners.rs:66-77 | A rule is found exactly when some rule with owners covers the path, and it is the earliest |
| Codeowners.LaterRulesDoNotMatter | crates/sakimori-core/src/codeowners.rs:66-72 | Rules added later in the file never change a finding |
| Codeowners.Classify | crates/sakimori-core/src/codeowners.rs:118-126 | Coverage reports the first owners of a workflow file and of another file under `.github` |
| EnvPolicy.Resolve | crates/sakimori-core/src/policy.rs:120-148 | The kept variables are those the policy keeps, in order, and the removed names are all the others, sorted |
| EnvPolicy.InactiveIsIdentity | crates/sakimori-core/src/policy.rs:108-113 | When the policy reports itself inactive, resolving keeps everything, so skipping it is safe |
| EnvPolicy.KeptExactly | crates/sakimori-core/src/policy.rs:129-141 | A variable is kept exactly when no `deny` pattern matches its name and some `allow` pattern does or the default is to pass; the others are dropped |
| EnvPolicy.RemovedExactly | crates/sakimori-core/src/policy.rs:142-147 | The names reported as removed are those of the variables not kept, one for each |
| EnvPolicy.ResolveIsStable | crates/sakimori-core/src/policy.rs:85-96 | The results split the parent, nothing denied survives, under `clear` only allowed names survive, and resolving again drops nothing |
| Stats.Stats.Ingest | crates/sakimori-core/src/stats.rs:31-68 | One event updates the counters and the buffer by the step whose runs are characterised below; the result says whether the buffer changed |
| Stats.NextMeans | crates/sakimori-core/src/stats.rs:38-48 | On any buffer, an event with room is added and a benign one without room is dropped |
| Stats.NextDenied | crates/sakimori-core/src/stats.rs:50-67 | On any buffer, a denied event without room takes the place of the oldest benign sample of its kind or, in a full buffer without one, of the oldest benign sample |
| Stats.RunIsRetained | crates/sakimori-core/src/stats.rs:20-30 | Closed form: after any run from the default state the buffer is exactly the events kept by their rank among their kind, in arrival order |
| Stats.SamplesByKind | crates/sakimori-core/src/stats.rs:13-15 | Per kind: the denied samples are the first 64 denied events, the benign ones one contiguous slice of the benign arrivals, and together they number min(64, seen) |
| Stats.Ledger | crates/sakimori-core/src/stats.rs:38-66 | Conservation: accepted benign minus displaced benign plus retained denied is always min(64, seen) |
| Stats.FallbackNeverFires | crates/sakimori-core/src/stats.rs:50-60 | From the default state the total cap never binds and eviction across kinds never happens; an early denied event always gets in |
| Stats.TotalCapIsSlack | crates/sakimori-core/src/stats.rs:15-17 | Three kinds of 64 samples stay below the total cap |
| Stats.EvictOldest | crates/sakimori-core/src/stats.rs:50-65 | Displacing one more benign sample removes exactly the oldest benign sample of the kind |
| Tamper.SnapshotFile | crates/sakimori-core/src/tamper.rs:303-324 | A file is recorded by size, with the hash of its whole contents exactly when it is within the cap |
| Tamper.Walk | crates/sakimori-core/src/tamper.rs:233-301 | The walk adds exactly the files, the symlinks with their decoded targets and the unreadable paths of the tree below the directory, and fails exactly when it enters a directory that cannot be listed for another reason than permissions |
| Tamper.WalkEntry | crates/sakimori-core/src/tamper.rs:249-299 | One directory entry contributes exactly its own files, symlinks and unreadable paths |
| Tamper.Take | crates/sakimori-core/src/tamper.rs:127-141 | A snapshot of a root, with the default skip list plus the extra names: it succeeds exactly when no directory entered is broken, and then lists as unreadable exactly what the walk meets and cannot read |
| Tamper.SnapshotIsExact | crates/sakimori-core/src/tamper.rs:108-120 | At every path the snapshot records what really is there, a symlink by its lossily decoded target, if it is reachable without skipped or unreadable directories, and nothing otherwise |
| Tamper.UnreadableIsExact | crates/sakimori-core/src/tamper.rs:242-298 | Path by path: unreadable are exactly the directories entered that deny listing, the entries without a type, and the files and symlinks that cannot be read |
| Tamper.UnreadableOnce | crates/sakimori-core/src/tamper.rs:108-120 | No path is listed as unreadable twice |
| Tamper.WalkableExactly | crates/sakimori-core/src/tamper.rs:241-247 | The walk fails exactly when, at some path, it enters a directory whose listing fails for another reason than permissions |
| Tamper.Compare | crates/sakimori-core/src/tamper.rs:184-203 | The comparison finds exactly the added, modified and removed paths |
| Tamper.DiffReversed | crates/sakimori-core/src/tamper.rs:152-161 | The three parts are disjoint, and swapping the snapshots swaps added with removed and before with after |
| Tamper.PatchGivesCurrent | crates/sakimori-core/src/tamper.rs:180-203 | The diff is complete: applying it to the baseline gives the current key set with no difference left, and the current snapshot itself when all is hashed |
| Tamper.CleanMeansNoDifference | crates/sakimori-core/src/tamper.rs:171-173 | A diff is clean exactly when the key sets agree and no entry differs |
| Tamper.CleanIsEqualityWhenHashed | crates/sakimori-core/src/tamper.rs:220-225 | On fully hashed snapshots a clean diff means equality, so "clean" is an equivalence |
| Tamper.CleanNotTransitive | crates/sakimori-core/src/tamper.rs:220-225 | Without hashes it is not transitive: an unhashed snapshot in between hides a rewrite |
| Tamper.CleanTransitiveExactly | crates/sakimori-core/src/tamper.rs:205-231 | A snapshot hides no change between two others exactly when every file in it is hashed |
| Tamper.DiffMeans | crates/sakimori-core/src/tamper.rs:184-203 | End to end, path by path: added, removed or modified exactly by which of the two walks reached it and whether they saw something distinguishable, with the entries of both |
| Tamper.RemovalsAreReal | crates/sakimori-core/src/tamper.rs:108-120 | Every reported removal is of something gone exactly when the second walk reaches whatever the first reached and is still there |
| Tamper.UnreadableIsReportedRemoved | crates/sakimori-core/src/tamper.rs:108-120 | An unchanged file that becomes unreadable is reported as removed |
| Tamper.CleanExactlyWhenSame | crates/sakimori-core/src/tamper.rs:205-231 | End to end, both directions and for any hash: the diff of two walks is clean exactly when at every path both saw the same thing, up to rewrites of oversized files at equal length, files of equal length and hash, and symlink targets that decode alike |
| Tamper.TamperingIsDetected | crates/sakimori-core/src/tamper.rs:1-14 | Any change of a file or symlink reachable wherever it exists makes the diff unclean, unless a file kept its length and is oversized or collides, or a symlink's two targets decode alike |
| Tamper.RetargetingUnseen | crates/sakimori-core/src/tamper.rs:278-287 | A concrete retargeting that goes unseen |
| Lifecycle.ValidateEntryPath | crates/sakimori-proxy/src/lifecycle.rs:608-630 | A path is accepted exactly when it is relative and no prefix of it climbs above its start |
| Lifecycle.ContainedIffResolves | crates/sakimori-proxy/src/lifecycle.rs:608-630 | The accepted paths are exactly those that lead, step by step, to a place inside the archive's directory |
| Lifecycle.ParsePackageJson | crates/sakimori-proxy/src/lifecycle.rs:223-247 | The scripts reported are the nonblank lifecycle scripts of the record the inspector's own decoder yields, in execution order |
| Lifecycle.ReportMeans | crates/sakimori-proxy/src/lifecycle.rs:233-246 | What is reported: in execution order, those of the four install-time stages that hold more than blanks |
| Lifecycle.MutatePackageJson | crates/sakimori-proxy/src/lifecycle.rs:490-521 | The rewritten package lacks every lifecycle key, the stages list those present, and nothing is rewritten when none is |
| Lifecycle.InspectNpmTarball | crates/sakimori-proxy/src/lifecycle.rs:156-198 | The inspection is that of the first root `package.json`, past malformed entries, by the record decoder |
| Lifecycle.InspectionMeans | crates/sakimori-proxy/src/lifecycle.rs:156-198 | The inspection, case by case: not gzip, no root `package.json`, an unreadable one, and the report of the first |
| Lifecycle.RewriteRootPackageJson | crates/sakimori-proxy/src/lifecycle.rs:436-488 | Pass one finds the first root `package.json` and reports the first failing check among the entries it reaches |
| Lifecycle.RebuildTar | crates/sakimori-proxy/src/lifecycle.rs:523-606 | Pass two rebuilds every entry or reports the first failure |
| Lifecycle.StripNpmTarball | crates/sakimori-proxy/src/lifecycle.rs:326-389 | The whole strip, with its size checks before either pass |
| Lifecycle.StrippedExactly | crates/sakimori-proxy/src/lifecycle.rs:326-389 | A tarball is stripped exactly when its sizes fit, every entry has a good header, a size within the limit and a contained path and is not one too many, the first root `package.json` has a lifecycle script, and every entry can be written |
| Lifecycle.StrippedStages | crates/sakimori-proxy/src/lifecycle.rs:507-520 | The stages listed are, in execution order, those present in the package that is rewritten |
| Lifecycle.UnchangedExactly | crates/sakimori-proxy/src/lifecycle.rs:315-319 | A tarball is left unchanged exactly when its sizes fit, every entry passes up to the root `package.json` if there is one, and that has no lifecycle script |
| Lifecycle.RefusedBeforeScan | crates/sakimori-proxy/src/lifecycle.rs:330-350 | Sizes, the gzip mark and decompression are checked first, each with its error |
| Lifecycle.RefusedForEntry | crates/sakimori-proxy/src/lifecycle.rs:446-463 | The first entry reached that breaks a rule is refused with that rule's error, an unsafe path as a bad path |
| Lifecycle.RefusedForWriting | crates/sakimori-proxy/src/lifecycle.rs:557-600 | When every entry passes, the first that cannot be written is refused: a link without target as a bad archive, anything else as an I/O error |
| Lifecycle.ReportedButUnchanged | crates/sakimori-proxy/src/lifecycle.rs:315-319 | A tarball the inspector reports is left unchanged exactly when it is admitted and the stripper's decoder sees no object in its root `package.json`: an array, or a text it refuses |
| Lifecycle.ArrayPackageJsonUnchanged | crates/sakimori-proxy/src/lifecycle.rs:136-140 | A concrete tarball of the first kind, of any admitted size |
| Lifecycle.OutOfRangePackageJsonUnchanged | crates/sakimori-proxy/src/lifecycle.rs:494-497 | A concrete tarball of the second kind: an object with a number out of range outside `scripts` |
| Lifecycle.StrippedButUnreported | crates/sakimori-proxy/src/lifecycle.rs:315-319 | A tarball that is stripped was not reported exactly when the record decoder refuses its root `package.json` or no lifecycle key in it holds a nonblank string |
| Lifecycle.RepeatedScriptsUnreported | crates/sakimori-proxy/src/lifecycle.rs:223-227 | A concrete tarball of the first kind: a repeated `scripts` key |
| Lifecycle.PassTwoNeverRechecks | crates/sakimori-proxy/src/lifecycle.rs:434-435 | Once pass one has found scripts, pass two never fails on an entry count, a size or an unsafe path, only on a refused path, an unreadable body or a link without target |
| Lifecycle.StrippedPreserves | crates/sakimori-proxy/src/lifecycle.rs:523-606 | The output has the same entries in the same order and of the same kinds; every other file is byte-identical, and the package loses only lifecycle keys of `scripts` |
| Lifecycle.StrippedInspectsClean | crates/sakimori-proxy/src/lifecycle.rs:315-319 | The stripped tarball inspects as free of scripts exactly when the first entry stored as the root `package.json` is the rewritten one, reports nothing, or does not exist; always when storing changes no entry's root status |
| Lifecycle.RootsKeptExactly | crates/sakimori-proxy/src/lifecycle.rs:468-475 | With a writer that drops a leading `.` of short paths, no root status changes exactly when no entry so stored is `./package.json` or a `package.json` in a directory written with a leading `.` |
| Lifecycle.StrippedStillReports | crates/sakimori-proxy/src/lifecycle.rs:557-598 | A tarball of two package files whose stripped form is still reported |
| Lifecycle.StripTwice | crates/sakimori-proxy/src/lifecycle.rs:315-319 | A second strip finds nothing to do exactly when the output is admitted and the entry now first as root is the rewritten one or has nothing to rewrite |
| Lifecycle.StripTwiceBySize | crates/sakimori-proxy/src/lifecycle.rs:315-319 | Where storing keeps roots and contained paths, a second strip finds nothing to do exactly when the output respects the size limits, and is otherwise refused for its size |
| Decider.AllowPersists | crates/sakimori-proxy/src/decision.rs:158-176 | What is allowed now stays allowed; time can only turn "too young" into "allowed" |
| Decider.AllowedExactly | crates/sakimori-proxy/src/decision.rs:91-176 | A version is allowed exactly when no hook denies it and it is known to be old enough, or its age is unknown and that is tolerated |
| Decider.DeniedBecause | crates/sakimori-proxy/src/decision.rs:91-176 | The reason of a denial is the first that applies: typosquat, malicious, age lookup failed, age unknown, too young |
| Decider.HooksOnlyDeny | crates/sakimori-proxy/src/decision.rs:99-157 | The typosquat and known-bad hooks only add denials, and otherwise leave the age verdict alone |
| Decider.HooksMean | crates/sakimori-proxy/src/decision.rs:99-157 | The hooks deny exactly a name that a blocking typosquat hook suggests another for, or a version the known-bad lookup answers with ids |
| Decider.MinAgeAppliedExactly | crates/sakimori-proxy/src/decision.rs:160-163 | The age test uses the configured minimum age exactly when that is within the time library's range |
| Typosquat.DistanceIsOptimal | crates/sakimori-proxy/src/typosquat.rs:120-131 | The recurrence is the optimal-string-alignment distance: the least cost of an alignment that edits each part at most once by keeping, substituting, deleting, inserting or transposing |
| Typosquat.OneTypoAway | crates/sakimori-proxy/src/typosquat.rs:120-126 | One byte more, one fewer, another one, or two adjacent ones swapped, anywhere in a string: a distance of one |
| Typosquat.EditDistanceBounded | crates/sakimori-proxy/src/typosquat.rs:136-187 | The three-row algorithm returns that distance when it is within the bound and nothing otherwise, for every pair of strings and every bound |
| Typosquat.FillRow | crates/sakimori-proxy/src/typosquat.rs:160-176 | The inner loop computes one row of the recurrence from the two rows before it, and a lower bound of its entries |
| Typosquat.EarlyExit | crates/sakimori-proxy/src/typosquat.rs:177-179 | Giving up when a row's minimum exceeds the bound is sound, although transpositions read two rows back |
| Typosquat.LengthsBoundDist | crates/sakimori-proxy/src/typosquat.rs:149-151 | The length test loses nothing: the distance is at least the difference of the lengths |
| Typosquat.DistSymmetric | crates/sakimori-proxy/src/typosquat.rs:141-148 | Swapping the arguments does not change the distance |
| Typosquat.LowerMeans | crates/sakimori-proxy/src/typosquat.rs:78-81 | Two names are the same in lower case exactly when they agree up to the case of ASCII letters |
| Typosquat.ClosestName | crates/sakimori-proxy/src/typosquat.rs:417-440 | The scan gives the first of the closest names within the threshold; the test for an exact match before it is only a shortcut |
| Typosquat.Suggest | crates/sakimori-proxy/src/typosquat.rs:67-109 | A suggestion is the closest popular name, and is made for a name near the list but not on it |
| Typosquat.SuggestionMeans | crates/sakimori-proxy/src/typosquat.rs:34-38 | There is one suggestion at most, when there is one, and its distance is positive and within the threshold |
| Typosquat.SuggestMirrored | crates/sakimori-proxy/src/typosquat.rs:382-406 | The mirrored list decides when it holds the name or one near it, the baseline otherwise |
| Typosquat.DocumentedFallbackExactly | crates/sakimori-proxy/src/typosquat.rs:382-384 | Falling back as documented, only under an empty mirror, gives the same answer exactly when the mirror is empty or decides or the baseline has nothing to suggest |
| Typosquat.SilentMirrorFallsBack | crates/sakimori-proxy/src/typosquat.rs:391-405 | A name for which it does not |
| SparseIndex.SplitLines | crates/sakimori-proxy/src/rewrite.rs:113-128 | The line iterator yields the specified lines |
| SparseIndex.LinesPartition | crates/sakimori-proxy/src/rewrite.rs:111-112 | Splitting partitions any byte string into lines that hold a terminator only at their end |
| SparseIndex.LinesOfFlatten | crates/sakimori-proxy/src/rewrite.rs:111-112 | Any properly terminated lines are recovered by splitting their concatenation |
| SparseIndex.RewriteCratesIndexJsonl | crates/sakimori-proxy/src/rewrite.rs:57-109 | The output is the kept lines byte for byte, and kept plus dropped is the number of non-blank lines |
| SparseIndex.StaysExactly | crates/sakimori-proxy/src/rewrite.rs:71-106 | A line stays exactly when it is blank, unreadable, old enough by its own publish time, or without one and allowed by the decider |
| SparseIndex.KeptMeans | crates/sakimori-proxy/src/rewrite.rs:68-109 | The lines kept are those that stay, each as often as it occurs; the others are the ones dropped |
| SparseIndex.NonBlankMeans | crates/sakimori-proxy/src/rewrite.rs:71-74 | The lines counted are those that are not a bare line end |
| SparseIndex.TrimNewlineMeans | crates/sakimori-proxy/src/rewrite.rs:166-175 | What is taken off a line is its end: LF, CR, or CR and LF |
| SparseIndex.OutputLines | crates/sakimori-proxy/src/rewrite.rs:68-69 | Splitting the output again gives exactly the lines kept |
| SparseIndex.RewriteIdempotent | crates/sakimori-proxy/src/rewrite.rs:53-56 | Rewriting the output again changes nothing and drops nothing |
| SparseIndex.RewriteMonotoneInTime | crates/sakimori-proxy/src/rewrite.rs:142-164 | Rewriting at a later and at an earlier time, in either order, equals rewriting at the earlier time alone |
| SparseIndex.FastPathAgrees | crates/sakimori-proxy/src/rewrite.rs:78-84 | So without hooks they always do |
| SparseIndex.FastPathExactly | crates/sakimori-proxy/src/rewrite.rs:78-84 | For a whole index, with an oracle that answers each line's own publish time: both paths give the same output exactly when no line with a publish time is old enough and denied by a hook |
| SparseIndex.FastPathDisagrees | crates/sakimori-proxy/src/rewrite.rs:81-84 | With hooks, the two paths differ on a line exactly when it is old enough and a hook denies it |
| Osv.OsvClient.Cached | crates/sakimori-proxy/src/osv.rs:76-82 | A cached answer is used for ever if positive, for less than ten minutes if negative |
| Osv.OsvClient.Remember | crates/sakimori-proxy/src/osv.rs:84-94 | The entry is overwritten unconditionally |
| Osv.OsvClient.Lookup | crates/sakimori-proxy/src/osv.rs:129-141 | One undisturbed lookup: the ids used are the cached ones on a hit, else those of the response, or none for an ecosystem OSV does not know; the answer is flagged with them exactly if there are any, and failed exactly on a miss whose request fails; the cache stays or gets them |
| Osv.HitIsBegin | crates/sakimori-proxy/src/osv.rs:130-137 | A lookup that hits is one step of the run model, and its answer tells the reply that step appends |
| Osv.MissIsThreeSteps | crates/sakimori-proxy/src/osv.rs:138-141 | A lookup that misses is the three steps of the run model with any waiting between: the same cache, and its answer tells the reply appended, so what is proved of replies holds of answers |
| Osv.RunsAreGrounded | crates/sakimori-proxy/src/osv.rs:68-142 | In every interleaving each cache entry, fetch in flight and reply is what upstream said at a recent enough time |
| Osv.BoundedStaleness | crates/sakimori-proxy/src/osv.rs:50-52 | A "not flagged" reply means upstream was clean less than the negative lifetime plus the fetch latency earlier, so anything flagged that long is reported, and positives are true |
| Osv.StalenessBoundIsTight | crates/sakimori-proxy/src/osv.rs:50-52 | Some run reaches that bound, so no smaller one holds |
| Osv.UnsupportedNeverFlagged | crates/sakimori-proxy/src/osv.rs:182-202 | Packages of ecosystems without an OSV name are never flagged |
| Osv.PositiveCanBeLost | crates/sakimori-proxy/src/osv.rs:128-142 | Overlapping lookups can report a package flagged and later not flagged |
| Osv.PositiveLostExactly | crates/sakimori-proxy/src/osv.rs:84-94 | In every run, some reply that a package is flagged is followed by one that it is not exactly when some lookup stores an empty answer over a positive entry |
| Osv.PositiveNeverLostAlone | crates/sakimori-proxy/src/osv.rs:20-23 | When no two lookups of a package overlap, that never happens: what was reported flagged stays cached so, and no positive reply is taken back |
| OsvMirror.ParseRows | crates/sakimori-proxy/src/osv_mirror.rs:96-170 | The table has a key for every pair some row names, with exactly the ids rows give it |
| OsvMirror.TableMeans | crates/sakimori-proxy/src/osv_mirror.rs:105-160 | The table has a key for every package that some complete row of a known ecosystem is about, records without versions being about all, with exactly the ids such rows carry |
| OsvMirror.TableIsUnique | crates/sakimori-proxy/src/osv_mirror.rs:162-168 | The table does not depend on the order or repetition of rows |
| OsvMirror.FlaggedExactly | crates/sakimori-proxy/src/osv_mirror.rs:79-89 | A package is flagged exactly when some row lists it, at its version or all versions, and its exact version is not named by rows without ids alone |
| OsvMirror.FoundExactly | crates/sakimori-proxy/src/osv_mirror.rs:79-89 | The ids a lookup gives are those rows carry about this version, if any row is about it, and otherwise those about all versions |
| OsvMirror.EmptyRecordHides | crates/sakimori-proxy/src/osv_mirror.rs:148-158 | A two-row dump in which a listed package is not flagged |
| OsvMirror.MirrorOracle.RefreshOnce | crates/sakimori-proxy/src/osv_mirror.rs:208-250 | A body that parses replaces table and tag together; a 304, in either form, and every failure leave the state unchanged |
| OsvMirror.RunsAreCoherent | crates/sakimori-proxy/src/osv_mirror.rs:63-68 | In every run the table is that of a body the server had under the stored tag |
| OsvMirror.ConditionalEqualsUnconditional | crates/sakimori-proxy/src/osv_mirror.rs:204-208 | After any answered request, 200 or 304 (section 13.1.2 of RFC 9110) and however the client delivers the 304, the table equals that of an unconditional fetch |
| OsvMirror.FallbackHeardExactly | crates/sakimori-proxy/src/osv_mirror.rs:300-315 | The fallback is the answer exactly when the primary gives none, so never over the mirror; a primary that answers is believed, ids or not; and an empty mirror clears everything |
| PublishCache.NormalizeName | crates/sakimori-proxy/src/pypi_simple_client.rs:152-170 | The normalised name is the dash-join of the lower-cased maximal separator-free runs |
| PublishCache.NormalizedIdentifies | crates/sakimori-proxy/src/pypi_simple_client.rs:149-151 | Normalising is idempotent, and two names share a cache entry exactly when they have the same runs |
| PublishCache.SeparatorsCollapse | crates/sakimori-proxy/src/pypi_simple_client.rs:155-160 | The separators are exactly the dash, the underscore and the dot |
| PublishCache.NuGetKeysMean | crates/sakimori-proxy/src/nuget_flatcontainer_client.rs:134-143 | Two NuGet ids share a cache entry exactly when they agree up to the case of ASCII letters |
| PublishCache.NormalizedIsPep503Exactly | crates/sakimori-proxy/src/pypi_simple_client.rs:149-170 | The normalised name is the PEP 503 name exactly when the name has no separator at either end |
| PublishCache.Pep503Means | crates/sakimori-proxy/src/pypi_simple_client.rs:149-170 | On any name, what the two differ by: a dash at each end that has separators |
| PublishCache.LeadingDashVanishes | crates/sakimori-proxy/src/pypi_simple_client.rs:155-160 | A name for which they differ |
| PublishCache.Client.GetFresh | crates/sakimori-proxy/src/pypi_simple_client.rs:109-118 | Only an entry younger than its lifetime is returned |
| PublishCache.Client.Put | crates/sakimori-proxy/src/nuget_flatcontainer_client.rs:145-156 | The entry is stored under the registry's own key for the name |
| PublishCache.Client.LookupBlocking | crates/sakimori-proxy/src/nuget_flatcontainer_client.rs:124-132 | One lookup, checked when asked and stored when done, answers and updates the cache as the runs below do |
| PublishCache.EntryIsLastFetch | crates/sakimori-proxy/src/pypi_simple_client.rs:120-131 | A cache entry is always the last fetch of its key |
| PublishCache.FetchedOncePerLifetime | crates/sakimori-proxy/src/pypi_simple_client.rs:27-30 | In every serial run a key is fetched at most once per lifetime, and every answer was fetched less than a lifetime before it was asked for |
| PublishCache.RefreshNow | crates/sakimori-proxy/src/nuget_flatcontainer_client.rs:158-184 | A version's time is that of the first source that knows it, among the index and at most 16 pages |
| Advisories.Digest | crates/sakimori-core/src/advisories.rs:133-149 | One entry per logged package; ephemeral if any install was, otherwise the first install's mode |
| Advisories.LatestModeKeptExactly | crates/sakimori-core/src/advisories.rs:133-136 | The mode kept is the documented one exactly when the package was ever ephemeral or its first and last installs agree |
| Advisories.FirstModeKept | crates/sakimori-core/src/advisories.rs:138-147 | A log in which the latest mode is not kept |
| Advisories.ScanBatches | crates/sakimori-core/src/advisories.rs:157-182 | For any batch size, one request per chunk of the packages, in order; the scan fails exactly when the request for some chunk does, and else pairs packages and answers by position |
| Advisories.AskedInOrder | crates/sakimori-core/src/advisories.rs:157-168 | The batches together ask about the packages in order, each batch nonempty and within the size |
| Advisories.ChunksAreFull | crates/sakimori-core/src/advisories.rs:158 | All batches but the last are full |
| Advisories.BatchingIsInvisible | crates/sakimori-core/src/advisories.rs:157-182 | With an oracle that answers each package on its own, no request fails and the hits are those of asking one by one |
| Advisories.Scan | crates/sakimori-core/src/advisories.rs:129-189 | The scan asks exactly the queries that carry the name, the version and OSV's ecosystem name of a logged package of the four ecosystems OSV knows, each once, in key order and in batches, and fails exactly when some batch's request does; for a pointwise oracle it succeeds with the hits of asking one by one, each with its deduplicated mode |
| Advisories.QueryOfIsFor | crates/sakimori-core/src/advisories.rs:157-168 | The query made for a package is the one that carries its name, its version and OSV's name of its ecosystem; none exists for other ecosystems |
| Advisories.HitsMean | crates/sakimori-core/src/advisories.rs:170-181 | A hit is reported exactly for a package whose own query, by name, version and ecosystem, is answered with ids, with those ids and its mode |
| Advisories.ChunkHitsMean | crates/sakimori-core/src/advisories.rs:169-181 | Within a batch, packages and answers are paired by position, whatever the reply's length |
| Advisories.ListingIsUnique | crates/sakimori-core/src/advisories.rs:138-155 | The packages in key order are determined by the log, so the whole report is |
| Advisories.HitsAreInKeyOrder | crates/sakimori-core/src/advisories.rs:138-181 | The hits come in key order, by ecosystem, name and version |
| Parser.NpmParseOfPrint | crates/sakimori-proxy/src/parser.rs:162-196 | Every well-formed tarball URL, scoped or not, parses back to its name and version |
| Parser.NpmPrintOfParse | crates/sakimori-proxy/src/parser.rs:162-196 | Every path the parser pins is, apart from query and leading slashes, the printed URL of its result |
| Parser.ParsePypi | crates/sakimori-proxy/src/parser.rs:234-274 | The file name is cut at its first digit-led part after the leading one |
| Parser.PypiParseOfPrint | crates/sakimori-proxy/src/parser.rs:205-213 | Every sdist and wheel URL parses back to its name and version, if no later name segment starts with a digit |
| Parser.PypiPrintOfParse | crates/sakimori-proxy/src/parser.rs:234-274 | Every file that is pinned is a wheel, a zip or a gzipped tarball of the pinned name and version |
| Parser.FileNameMeans | crates/sakimori-proxy/src/parser.rs:235-239 | The file name is what lies between the last slash and the query |
| Parser.StemPrintsBack | crates/sakimori-proxy/src/parser.rs:252-273 | Whatever is pinned is a printed form: name, dash, version, then nothing or a dash and more |
| HubIngest.BoundaryIffValidPrefix | crates/sakimori-proxy/src/hub_ingest.rs:260-262 | In valid UTF-8 (section 4 of RFC 3629) the boundary test finds exactly the cuts that leave valid UTF-8 |
| HubIngest.TruncateOnCharBoundary | crates/sakimori-proxy/src/hub_ingest.rs:263-272 | The result is the longest valid UTF-8 prefix within the budget, and a cut leaves at most three bytes unused |

## Left out

- Tamper.Compare: gives sets and a map; the source lists the paths in key order.
- OsvMirror.ParseRows: keeps ids as sets, which stand for the sorted, duplicate-free lists; JSON decoding is done before it, and `updated_at` is not kept.
- OsvMirror.ConditionalEqualsUnconditional: refreshes do not overlap, as in the background loop; overlapping manual refreshes are not modelled.
- Lifecycle.StrippedPreserves: says nothing of JSON key order, number spelling, duplicate keys, header fields other than path, kind and size, or the recomputed digests; a value with a long decimal number may not be read back exactly, and is then outside its hypothesis. The body of an entry is what reading it gives: an entry stored as sparse is written back expanded under its sparse header, and reading that again is not modelled.
- Lifecycle.StripTwice: does not cover archives with sparse entries, whose output may not read back.
- Lifecycle.StripTwiceBySize: does not cover archives with sparse entries, for the same reason.
- Lifecycle.StrippedInspectsClean: does not cover archives with sparse entries, for the same reason.
- Lifecycle.RebuildTar: a link's target is the link field of the entry's header, as in the source, so a long target carried by an extension record is cut, which the model does not show; nor does it show that the writer normalises targets (`a//b` becomes `a/b`).
- PublishCache.Client.LookupBlocking: the asynchronous twin and overlapping lookups are not modelled; overlap is modelled for the OSV cache.
- Typosquat.Suggest: takes the popular names as a parameter, for one ecosystem; fetching the mirrored lists repeats `OsvMirror`.
- Osv.OsvClient.Lookup: the response is the list of ids that OSV's answer gives after the filter for malicious packages, a test of one id and two texts.
- Stats.Stats.Ingest: counters are unbounded, so their wrap-around at 64 bits is not modelled, and events keep only the fields that identify them.
- CODEOWNERS file loading and line parsing, which only feed rules to the matcher.
- Decompression, hashing and base64 loops, mutex poisoning, logging and the wording of deny reasons.
- PyPI sdist inspection and the strip and failure policies, which are single branches.
- The crates.io, NuGet and metadata URL parsers, which read path segments without ambiguity.
- Other rewriters, report rendering, the eBPF programs and host allow-lists.
