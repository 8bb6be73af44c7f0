# Local AI-tooling managers, modelled in Dafny

This project models the decision logic of five small command-line tools.
Each tool wraps OS or library calls around a small core.

- **Ostris** (`ostris/main.py`) manages the AI-Toolkit web UI on port 9000.
  - It finds the process listening on the port.
  - `start` refuses when the UI or a foreign process holds the port, patches `package.json`, launches `npm run build_and_start` detached and polls up to 60 times for readiness.
  - `stop` kills the occupant and the chain of supervisor processes above it, sweeps stray `run.py` workers and removes the PID marker.
  - `status` classifies the port as ours, foreign or free.
- **Comfy** (`comfy/main.py`) manages ComfyUI through a PID marker in `/tmp`.
  - The marker counts only when it parses as an integer and names a live process.
  - `start` checks its guards in a fixed order and builds an exact argument vector.
  - `stop` sends SIGTERM, waits through five grace checks, then sends SIGKILL.
- **Copycat** (`copycat/main.py`): the filename sanitiser, the uploader fallback, the output file names, the metadata lookups and the blockquote rendering of a description.
- **Hugin** (`hugin/main.py`): the size-unit choice, the sort, filter, count and total of the cache listing, the REFS cell, and the target resolution and confirmation guard of `nuke`.
- **Aicap** (`aicap/main.py`): image selection, the caption path, the skip/force rule, the caption text and the success counter of the batch captioner.

The OS is replaced by values.

- A `Host.Snapshot` is the process table (pid to name, command line and parent) plus the socket table.
- Whatever a tool does to the world is a list of `Host.Effect`s: file writes, file removals, spawns and signals.
- `Host.FileAfter` replays such a list to give the PID marker's final content.
- Races and refusals are explicit inputs. These cover a process vanishing, a kill that finds no process, and a kill that the OS refuses because the process belongs to another user. So are the readiness probes, the grace-period observations and the model oracle of the captioner.

Files:

- `wrappers.dfy`: `Option`.
- `text.dfy`: Python string operations. These are `in`, `strip`, `replace`, `lower`, `splitlines` boundaries, `int(s.strip())` and `str()` on integers, and code-point ordering.
- `seqs.dfy`: a stable sort standing for `list.sort`.
- `host.dfy`: the OS model.
- One file per tool.

Some behaviour of the code is easy to misread:

- Ostris kills every collected process with `p.kill()` (SIGKILL) at once. There is no cooperative signal and no grace period.
- Neither `stop` catches a refused kill of the port's occupant or its supervisors (Ostris) or of the marker's pid (Comfy). Comfy's `os.kill` can raise PermissionError and Ostris's `p.kill()` can raise AccessDenied. The command then fails at that point and leaves the PID marker. Ostris's worker sweep is different: it catches AccessDenied and goes on.
- Ostris and Comfy open the log with mode `"w"`, which truncates it rather than appending.
- Comfy's `start` and `status` decide "running" from the PID marker, not from a port probe. Its port test accepts a socket in any state, not only `LISTEN`.
- The worker sweep matches `"python"` in the name and both `"run.py"` and the toolkit directory in the command line.
- After a hijacked readiness poll, Ostris kills its child but leaves the PID marker it wrote. On a timeout it leaves both and exits normally.

## Model

| member | source | states |
|---|---|---|
| Text.ReplaceAllRemoves | ostris/main.py:66 | after replacing every occurrence of a pattern by a replacement that cannot recreate it, the pattern no longer occurs |
| Text.ParseIntOfIntToString | comfy/main.py:28 | `int(text.strip())` of the text `str(pid)` wrote gives back `pid` |
| Text.StrLeTotal | hugin/main.py:55 | string order is total |
| Text.StrLeTransitive | hugin/main.py:55 | string order is transitive |
| Text.StrLeIsPreorder | aicap/main.py:58 | string order is a total preorder, so sorting names or repo ids by it is well defined |
| Seqs.SortPermutes | hugin/main.py:51-55 | the sort returns a permutation of its input |
| Seqs.SortSorted | hugin/main.py:51-55 | for a total preorder, the sort returns its input in order |
| Seqs.Filter | aicap/main.py:58 | a list comprehension with a condition: the accepted elements as a subsequence of the input, each exactly as often as in the input, every other element not at all |
| Seqs.FilterSorted | aicap/main.py:57-58 | filtering a sorted sequence leaves it sorted |
| Ostris.FirstListenerFrom | ostris/main.py:25-31 | finds the first connection at or after an index with the port, status LISTEN and a non-zero pid that still exists; none before it qualifies, and None means none qualifies |
| Ostris.PortOccupant | ostris/main.py:23-32 | the occupant exists in the process table; it is the pid of the first qualifying connection, with vanished pids skipped; None iff no connection qualifies |
| Ostris.Status | ostris/main.py:160-172 | Free iff no connection qualifies; Ours when the occupant's name contains "node" or "next"; Foreign with the occupant's name otherwise |
| Ostris.PatchedPackageJson | ostris/main.py:60-67 | a write happens iff the old start script occurs; the new content replaces every occurrence; afterwards the old script no longer occurs |
| Ostris.AwaitReady | ostris/main.py:86-102 | stops at the first probe that sees an occupant: Ready for the UI, Hijacked for another process (and then kills the child); TimedOut only when all 60 probes saw a free port; one sleep per empty probe |
| Ostris.Start | ostris/main.py:35-102 | the UI on the port gives AlreadyRunning with no effect; a foreign occupant gives PortBusy with no effect; a missing UI dir gives MissingUi with no effect; otherwise the patch, the log truncation, the spawn of `npm run build_and_start` in the UI dir, the PID write and the poll's kill, in that order; after a launch the marker holds the child's pid |
| Ostris.CollectSupervisors | ostris/main.py:124-137 | the list starts with the target; each further pid is the parent of the one before and a supervisor; on an acyclic table the walk ends exactly where the source's loop ends |
| Ostris.WalkIsUnique | ostris/main.py:127-135 | two walks from the same target that both end where the loop ends are equal, so the kill list is determined by the table |
| Ostris.Ascending | ostris/main.py:148 | the pids of the table in strictly increasing order, each exactly once |
| Ostris.SweepWorkers | ostris/main.py:148-155 | exactly the python processes running run.py from the toolkit dir, in ascending pid order |
| Ostris.FirstDenied | ostris/main.py:140-144 | the position of the first pid of the chain whose kill is refused, with none before it refused; the chain's length iff none is |
| Ostris.KillChain | ostris/main.py:140-144 | SIGKILL to each pid of the chain in order; with a refused pid, the attempts stop right after it and it is reported; none refused iff every kill was attempted |
| Ostris.Stop | ostris/main.py:111-158 | with no occupant, only the marker's removal; otherwise SIGKILL to the walk's chain, then to the swept workers, then the marker's removal; a refused kill in the chain ends the run after that attempt, with no sweep and the marker left as it was; otherwise no marker is left; every signal is SIGKILL |
| Comfy.RunningPid | comfy/main.py:24-33 | a pid iff the marker exists, its text parses as an integer, and that pid is live; reading it changes nothing |
| Comfy.MarkerRoundTrip | comfy/main.py:28-30 | a marker written for a pid reads back as that pid exactly when the pid is live |
| Comfy.PortBusy | comfy/main.py:35-40 | true iff some connection is bound to the port, whatever its status |
| Comfy.LaunchArgv | comfy/main.py:68-79 | exactly the interpreter, `~/ComfyUI/main.py`, `--listen`, `0.0.0.0`, `--port`, `9000` |
| Comfy.Start | comfy/main.py:43-94 | guards in order: running marker, busy port, missing install, each with no effect; otherwise the log truncation, the spawn and the PID write; after a start the marker holds the child's pid |
| Comfy.RestartIsNoop | comfy/main.py:48-51 | right after a successful start whose child lives, the marker reads back as that child, so a second start stops at the first guard |
| Comfy.FirstGone | comfy/main.py:116-118 | the first of the five grace checks that finds the process gone, with every earlier check finding it alive |
| Comfy.GracePeriod | comfy/main.py:115-122 | sleeps once per check that finds the process alive; forces a kill iff the check after the loop still finds it alive |
| Comfy.Terminate | comfy/main.py:111-129 | SIGTERM first; a ProcessLookupError on it reports already dead with no wait, a PermissionError ends the command with no wait; otherwise the grace loop's sleeps, then SIGKILL iff the check after the loop finds the process alive, reported as stopped, already dead or refused by what that kill does; refused iff one of the two kills was refused |
| Comfy.Stop | comfy/main.py:103-129 | with no running marker, no signal and the stale marker removed; otherwise SIGTERM first, SIGKILL only when the process outlives the grace loop, a ProcessLookupError reported as already dead; a PermissionError leaves the marker as it was; in every other case the marker is gone |
| Comfy.Status | comfy/main.py:132-141 | Running iff the marker names a live non-zero pid; otherwise Down, flagged busy iff some connection holds port 9000 |
| Copycat.PyPrefix | copycat/main.py:29 | `s[:n]` for any integer n, negative bounds included: a prefix of the computed length |
| Copycat.CleanedIsJoinedRuns | copycat/main.py:24-28 | the three substitutions give the input's maximal ASCII-alphanumeric runs joined by single underscores |
| Copycat.Sanitize | copycat/main.py:21-29 | the result is a truncation of the joined runs; only letters, digits and '_'; no two underscores in a row; no leading '_'; at most max_len long; a prefix of the untruncated string |
| Copycat.NoRunsWithoutAlnum | copycat/main.py:24-28 | an input without ASCII alphanumerics has no runs, so it sanitises to "" |
| Copycat.SanitizeIsNotIdempotent | copycat/main.py:28-29 | "abc_def" with max_len 4 gives "abc_", which sanitises again to "abc" |
| Copycat.Uploader | copycat/main.py:56-59 | non-empty and on one line; "unknown_user" unless the return code is 0 and stripped stdout is non-empty, in which case it is the first line of stripped stdout |
| Copycat.Stem | copycat/main.py:62-63 | `{timestamp}_{clean}` starts with the timestamp and '_' and exceeds the timestamp by at most 51 characters: the '_' and at most 50 sanitised ones |
| Copycat.VideoName | copycat/main.py:63 | starts with the timestamp and '_', ends with ".mp4", is bounded in length, and uses only name characters for a well-formed timestamp |
| Copycat.MetaName | copycat/main.py:65 | starts with the timestamp and '_', ends with "_meta.md", is bounded in length, and uses only name characters for a well-formed timestamp |
| Copycat.NamesShareStem | copycat/main.py:62-65 | the video and metadata names share the stem `{timestamp}_{clean}` and differ |
| Copycat.FieldValue | copycat/main.py:96-103 | stripped stdout on success; on failure "" for the description and "N/A" for any other field |
| Copycat.StoredPairsHold | copycat/main.py:93-103 | storing distinct keys one after another leaves exactly those keys, each with its own value |
| Copycat.CollectMetadata | copycat/main.py:93-103 | the dictionary holds exactly the five fields, each with its lookup's value |
| Copycat.SplitLines | copycat/main.py:109 | no line holds a line boundary; empty text gives no lines |
| Copycat.SplitLinesRoundTrip | copycat/main.py:109 | for any text, joining the lines with '\n' gives the text with every boundary ("\r\n" as one) written as '\n' and a final boundary dropped |
| Copycat.SplitLinesRestores | copycat/main.py:109 | for text whose only boundaries are '\n' and which does not end in one, joining the lines with '\n' restores it exactly |
| Copycat.QuotedJoin | copycat/main.py:109 | joining break-free lines with "\n> " puts "> " after every newline |
| Copycat.FormatDescription | copycat/main.py:109 | "No description." for empty text; otherwise the lines joined by "\n> ", every newline followed by "> " |
| Hugin.SizeUnit | hugin/main.py:22-27 | "B" iff size < 1024, "KB" iff 1024 <= size < 1024^2, and so on through "TB"; "PB" iff size >= 1024^5 |
| Hugin.ByIdIsPreorder | hugin/main.py:55 | ordering by repo id is a total preorder |
| Hugin.Ordered | hugin/main.py:51-55 | a permutation of the repos; non-increasing size for "size", non-decreasing repo id for any other value |
| Hugin.Shown | hugin/main.py:60-62 | a repo is shown iff it is listed and the filter is absent, empty or a case-insensitive substring of its id |
| Hugin.ShownIsFilter | hugin/main.py:57-62 | the repos the loop does not skip are exactly the list comprehension of the matching repos |
| Hugin.ShownKeepsListing | hugin/main.py:57-62 | the shown repos keep the listing order, and each matching repo is shown as often as it is listed, any other not at all |
| Hugin.ShownUnfiltered | hugin/main.py:60-61 | without a filter every repo is shown |
| Hugin.ShownTotalAtMost | hugin/main.py:57-77 | the shown total never exceeds the listing's total |
| Hugin.AllRefs | hugin/main.py:64-66 | a ref is in the union iff some revision carries it |
| Hugin.CollectRefs | hugin/main.py:64-67 | "detached" iff every revision has no refs; otherwise exactly the union, which is non-empty |
| Hugin.RowsOf | hugin/main.py:69-75 | one row per shown repo, in order, with its REFS cell |
| Hugin.Tabulate | hugin/main.py:57-77 | the rows of the shown repos; count is their number and total_size the sum of their sizes |
| Hugin.ListCache | hugin/main.py:50-77 | the rows, count and total of the filtered repos in sorted order |
| Hugin.FirstExact | hugin/main.py:116 | the first repo whose id equals the target, none before it equal; None iff no id equals it |
| Hugin.Candidates | hugin/main.py:120 | a repo is a candidate iff its id contains the target, case-insensitively; the candidates keep the cache order, each as often as it is listed |
| Hugin.SingleMatchResolves | hugin/main.py:115-123 | in a cache listing each repo once, with no exact match, a target contained in exactly one repo's id resolves to that repo |
| Hugin.Resolve | hugin/main.py:115-131 | an exact match wins; otherwise one candidate resolves, several are ambiguous, none is not found; NotFound iff nothing matches fuzzily |
| Hugin.Nuke | hugin/main.py:113-144 | no deletion without a resolved target; a deletion attempt iff the target resolved and force is set or the confirmation said yes; a declined confirmation aborts; an attempt is reported deleted exactly when `rmtree` succeeded |
| Aicap.ImagesOf | aicap/main.py:58 | keeps exactly the names whose lower-cased form ends with an image extension, in their order, each as often as it occurs |
| Aicap.ImagesOfSorted | aicap/main.py:58 | filtering a sorted listing keeps it sorted |
| Aicap.SelectImages | aicap/main.py:57-58 | exactly the image entries of the listing, each as often as it is listed, in sorted name order |
| Aicap.SelectImagesIncreasing | aicap/main.py:57-58 | for a listing that names each entry once, the selected images are in strictly increasing name order |
| Aicap.Stem | aicap/main.py:70 | a prefix of the name; either the whole name or everything before a last dot that is neither first nor last |
| Aicap.CaptionReplacesExtension | aicap/main.py:69-70 | for an image name longer than its extension, the caption name is the name with the extension replaced by ".txt" |
| Aicap.CaptionIsNotImage | aicap/main.py:57-70 | a caption file name is never selected as an image |
| Aicap.Captions | aicap/main.py:68-110 | at most one write per image, and every effect is a file write |
| Aicap.Updated | aicap/main.py:65-107 | the reported count is at most the number of selected images |
| Aicap.UpdatedCountsWrites | aicap/main.py:104-107 | when no caption write fails after `open`, the count equals the number of caption files written |
| Aicap.CaptionsBound | aicap/main.py:100-112 | the writes number at most the images that got as far as `open`; the count is at most the writes and at most the described images |
| Aicap.ForceCaptionsAll | aicap/main.py:72-107 | with force, every image that got as far as `open` has its caption path written, whatever the folder held: a described image with trigger + ", " + its description, a failed write with what reached the file. The writes number exactly those images and the count exactly the described ones |
| Aicap.CaptionsAreDescriptions | aicap/main.py:69-105 | every write goes to the caption path of a selected image that got as far as `open`, and holds trigger + ", " + its description when the image was described |
| Aicap.SkipNeverOverwrites | aicap/main.py:72-74 | without force, no write lands on a name already in the folder and no two writes share a path |
| Aicap.CaptionLoop | aicap/main.py:65-110 | the loop writes exactly the specified caption files, in order, and counts only the complete writes |
| Aicap.Run | aicap/main.py:42-112 | a model-load failure writes nothing; an empty selection writes nothing and never enters the loop; otherwise the captions of the selected images, with the count of complete writes, no larger than the writes or the selection |

## Left out

- I/O is modelled only through the effect list: rich console output, Typer wiring and exit codes are not modelled, and messages appear only as outcome tags.
- Foreground mode and its KeyboardInterrupt handling, and the `logs` commands (a `tail -f`), are not modelled.
- psutil races are modelled as explicit inputs. These cover a pid that vanishes during the connection scan (skipped by `get_port_process`), a `kill` of an exited process, and `os.kill` raising ProcessLookupError or PermissionError. Timing between the probes is not modelled.
- Ostris.Start, Ostris.Status, Ostris.AwaitReady, Ostris.Stop: the port's occupant is assumed to still exist when its `name()` is read, and one name stands for every read of one probe. If it exits between the connection scan and that read, psutil raises NoSuchProcess, which nothing catches. `start` then crashes in the pre-flight check, or in the readiness loop after the spawn and the PID marker write, with the child left running. `status` crashes, and `stop` crashes before any kill and leaves the marker. Those crash paths are not modelled.
- A kill that psutil refuses during the worker sweep is logged as an attempt, because the sweep swallows AccessDenied. A PermissionError on the PID marker file is not modelled.
- Ostris.CollectSupervisors: the walk's reads of a parent's name and command line are assumed to succeed. On platforms where psutil refuses to read another user's command line, the AccessDenied would end `stop` before any kill; that path is not modelled.
- Ostris.CollectSupervisors: the walk is bounded by the number of processes in the table. Only a cycle of parent links can reach that bound, and there the source would loop forever.
- Hugin.Ordered: states a sorted permutation but not stability. Stability is modelled by the stable insertion sort, but no contract states it.
- Hugin.SizeUnit: models only the unit choice. The `.2f` float rendering is not modelled. The exact integer test agrees with Python's float division, whose divisions by 1024 are exact below 2^53.
- `scan_cache_dir`, `snapshot_download`, `shutil.rmtree` and `shutil.disk_usage` are foreign library calls; their results are inputs. `pull` and `space` are not modelled.
- The REFS cell is a set; the `", "`-joined text in set iteration order is not modelled.
- Copycat's `ingest` download flow is not modelled. `subprocess` is never imported in copycat/main.py, so line 51 raises NameError and every run ends in the error branch at line 134. Only the pure helpers and the field lookups are modelled. The Markdown template is not modelled either.
- Florence-2, torch and PIL inference, and the caption file's `open` and write, are an oracle. It answers each image name with a description, a failure before the caption file is opened, or a failed write that leaves the file truncated or partly written. Device choice and the model itself are not modelled.
- Environment-variable setup is not modelled.
- `str.lower()` is ASCII-only and whitespace is a fixed list. Unicode case folding and non-ASCII digits accepted by `int()` are not modelled.
- Paths are joined as strings; normalisation and `resolve_path` are not modelled.
- Aicap.Stem: follows pathlib up to Python 3.13, where a trailing dot is no suffix. Image names never end in a dot, so the selected images are unaffected.
- Comfy.RunningPid: an integer in the marker outside the range of a C `int` makes `psutil.pid_exists` raise OverflowError, which `get_running_pid` does not catch. The model treats such a pid like any other and answers from `live`.
