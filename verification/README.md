# TSUpdater core, modelled in Dafny

TSUpdater is a single PHP script, `updater.php`, that keeps a TeamSpeak 3 server installation current. Each run does the following:

- It resets its run cache.
- It compares the version recorded in the installation's `CURRENT_VERSION` marker file with the version the release manifest lists for the host's platform.
- When the installed version is outdated, it:
  - prepares a scratch directory;
  - downloads the archive from the first mirror;
  - accepts the download only if some file's sha256 digest equals the manifest's checksum;
  - extracts the archive and locates the package root (the directory of the first `ts3server`, `ts3server.exe` or `LICENSE` file);
  - stamps that root with the new version;
  - stops the service, rsyncs the root into the installation directory and starts the service again;
  - removes the scratch directory.

This project models that core as pure functions over immutable data and proves its properties.

| module | file | what it holds |
|---|---|---|
| `Wrappers` | `wrappers.dfy` | `Option` |
| `PhpStrings` | `php_strings.dfy` | the PHP built-ins the core relies on: `explode`, `implode`, `trim`, `empty()` on strings, the `(int)` cast of a string, and the decimal text of an int |
| `Versions` | `versions.dfy` | `compareVersions`, the three-int version parse, the stamped version text, and the stamp-then-read round trip |
| `Platform` | `platform.dfy` | `getSystemArchitecture`: the kernel and architecture tables |
| `Manifest` | `manifest.dfy` | the decoded manifest as nested maps, and the release selection with its accessors |
| `Integrity` | `integrity.dfy` | `validateRemoteDownload`: the first scratch file whose digest matches. The sha256 function is a parameter whose results are 64 lower-case hex digits. |
| `Payload` | `payload.dfy` | `getRealServerDirectory`: a depth-first search over the extracted tree, with its walk-order reference definition |
| `Orchestrator` | `orchestrator.dfy` | the state machine of `main`, `forceUpdate`, `updateTsServer`, `installDownloadVersion`, `copyExtractedData` and `sendTSCommand` |
| `Sequencing` | `sequencing.dfy` | properties of the orchestration traces |

In the orchestration model, every step takes a `World` and returns a `Step(value, world, effects)`:

- The `World` holds the run cache (`runtimeCache`) and the live installation directory.
- A step's `effects` are the abstract effects it performed, in order: `FetchManifest`, `Prepare`, `Download(url)`, `Verify`, `Extract`, `Locate`, `Stamp`, `Chown`, `CreateLive`, `Stop`, `Copy`, `Start` and `Cleanup`.
- Everything the script learns from outside is a field of the environment `Env`: the platform key, the decoded manifest, the sha256 function, the archive extraction, and the outcome of each I/O step.
- The sha256 function (`hash`) and the extraction (`unpack`) are functions of a file's content. The installer extracts exactly the file it recorded as `downloadFilePath`, so what is installed is tied to the file that passed the digest check.
- The outcome of each I/O step is given, not chosen by the model. Those outcomes are whether the scratch directory was prepared, whether the transfer worked, and the scratch listing after the transfer.

Where the code and its evidently intended behaviour disagree, the model follows the code:

- **Cleanup.** The intended behaviour removes the scratch directory at the end of every update attempt. The code removes it only after a successful download and verification (`updater.php:73-76`). A failed download leaves the scratch directory in place. `Sequencing.CleanupOnlyAfterDownload` states this.
- **Malformed versions.** The intended behaviour treats a version that does not parse into three integers as strictly older. The code always produces three integers: a missing part is `(int)null`, which is 0, and a non-numeric part casts to 0. So "1.2" reads as 1.2.0. The length-mismatch branch of `compareVersions` is never reached from the version check, because both sides always have three components.

## Model

| member | source | states |
|---|---|---|
| PhpStrings.ExplodeImplode | updater.php:392 | splitting on `.` a join of dot-free pieces gives back exactly those pieces |
| PhpStrings.ImplodeExplode | updater.php:174 | joining the pieces of a split with the same separator gives back the original text |
| PhpStrings.ExplodeSeparatorFree | updater.php:392 | no piece of a split contains the separator |
| PhpStrings.TrimLeftSpec | updater.php:431 | ltrim keeps a suffix, drops only trim characters, and stops at the first character that is not one |
| PhpStrings.TrimRightSpec | updater.php:431 | rtrim keeps a prefix, drops only trim characters, and stops at the last character that is not one |
| PhpStrings.TrimLineEnd | updater.php:431 | trim of an unpadded text followed by a line end gives back the text |
| PhpStrings.ReadDigitsStops | updater.php:394-396 | the cast reads only the leading digit run; non-digit text after it is ignored |
| PhpStrings.NatToStringSpec | updater.php:174 | the decimal text of a natural number is a non-empty digit run with no leading zero that reads back as the number |
| PhpStrings.IntToStringSpec | updater.php:174 | the text of an int ends in a digit, starts with `-` exactly when the int is negative, and holds no `.` |
| PhpStrings.SkipNumericSpaceSpec | updater.php:394-396 | the cast skips exactly the leading run of numeric whitespace |
| PhpStrings.IntCastReadsDigitRun | updater.php:394-396 | `(int)` of a text starting with a digit run is that run's value, whatever non-digit text follows (the exponent form aside) |
| PhpStrings.IntCastReadsNegatedDigitRun | updater.php:394-396 | `(int)` of `-` followed by a digit run is that run's negated value, whatever non-digit text follows (the exponent form aside) |
| PhpStrings.IntCastNonNumeric | updater.php:394-396 | a part that does not start with a blank, a sign or a digit casts to 0 |
| PhpStrings.IntCastIntToString | updater.php:174 | casting the decimal text of any int gives the int back |
| Versions.CompareVersions | updater.php:293-310 | the result is -1, 0 or 1, and it is -1 ("remote is newer") whenever the lengths differ, in either argument order |
| Versions.CompareVersionsLexicographic | updater.php:301-309 | for equal lengths, 0 exactly when the arrays are equal, -1 exactly when local is lexicographically below remote, 1 exactly when above; the first differing component decides |
| Versions.CompareVersionsAntisymmetric | updater.php:301-309 | for equal lengths, swapping the arguments negates the result |
| Versions.CompareVersionsTransitive | updater.php:301-309 | for equal lengths, "remote is newer" is transitive |
| Versions.NewerLocalIsNotOutdated | updater.php:277-282 | a local version equal to or above the remote one is never reported as outdated |
| Versions.ParseVersion | updater.php:392-397 | parsing always yields exactly three ints |
| Versions.ParseVersionReadsPieces | updater.php:392-397 | for a dotted text, component i is the cast of piece i, a missing piece gives 0, and pieces after the third are ignored |
| Versions.ParseVersionIgnoresExtraPieces | updater.php:392 | dropping the pieces after the third does not change the parsed version |
| Versions.ParseVersionDefault | updater.php:391 | the default text `0.0.0` parses as (0, 0, 0) |
| Versions.ComponentTextsSpec | updater.php:174 | implode writes component i as the decimal text of component i |
| Versions.ParseVersionText | updater.php:174 | parsing the dotted text of any three-int version gives the version back, whatever the signs of its components |
| Versions.VersionTextUnpadded | updater.php:174-176 | the stamped text starts and ends with a character trim keeps |
| Versions.LocalVersionOf | updater.php:426-440 | getLocalVersion yields three ints, and (0, 0, 0) when there is no marker file |
| Versions.StampedMarkerReadsBack | updater.php:174-176 | the marker the installer writes (version text plus a line end) reads back through trim and the parse as the same version |
| Platform.LookupSpec | updater.php:334-335 | a name in the table yields the key of its entry, and a name not in it yields `''` |
| Platform.TableNames | updater.php:318-331 | the kernel and architecture tables map exactly the names the source lists |
| Platform.SystemArchitectureSpec | updater.php:315-337 | each key is one of the tables' keys, and it is `''` exactly when the host's name is not in the table; the Windows spellings map onto x86 and x86_64 |
| Manifest.SelectRelease | updater.php:373-379 | `manifest[sys][arch]` when both keys are non-empty and present; the empty release when either key is empty or missing |
| Manifest.ReleaseVersion | updater.php:388-398 | the remote version has three components and is (0, 0, 0) when the release has no version |
| Manifest.FirstMirror | updater.php:412-421 | the location of the first mirror in manifest order, or `''` when there are no mirrors |
| Manifest.UnknownHostHasNoRelease | updater.php:333-336 | a host outside the tables gets the empty release: version 0.0.0, checksum `''`, download path `''` |
| Integrity.FindVerified | updater.php:261-269 | the index found is of an accepted entry with no accepted entry before it; none found means no entry is accepted |
| Integrity.ArchiveContent | updater.php:93-94 | a file exists at a path exactly when the listing holds a regular file under it |
| Integrity.ArchiveContentAt | updater.php:93-94 | in a listing that names each path once, reading a listed path gives that entry's content |
| Integrity.VerifiedArchive | updater.php:261-266 | reading back the recorded path gives the first accepted entry's content, whose digest is the checksum |
| Integrity.VerifiedDownload | updater.php:258-272 | a download path is found exactly when some regular file's digest equals the checksum, it is the path of the first such file, and a checksum that is not a sha256 hex digest (the empty default included) never matches |
| Payload.LocateIn | updater.php:155-163 | whatever the search answers is a directory whose listing holds a marker file |
| Payload.LocatePayloadRoot | updater.php:153-166 | the located root's listing holds a marker file |
| Payload.LocateInIsFirstOfWalk | updater.php:155-163 | the early-returning search answers the directory of the first marker file in the walk order of the recursive iterator |
| Payload.LocatePayloadRootSpec | updater.php:153-166 | the root is the directory of the first marker file in walk order, and there is none exactly when no file of the tree is a marker |
| Orchestrator.ReleaseData | updater.php:367-383 | the cached release when there is one, at no cost; otherwise the release selected from the fetched manifest, with one fetch; the result, the empty release included, is cached |
| Orchestrator.ReleaseDataMemoised | updater.php:369-371 | a second read returns the same release, fetches nothing and leaves the world unchanged |
| Orchestrator.RemoteVersion | updater.php:388-398 | three components, (0, 0, 0) when the release has no version, and afterwards the release is cached, so a further read fetches nothing |
| Orchestrator.RemoteChecksum | updater.php:403-407 | the release's checksum field, `''` when it has none, and afterwards the release is cached |
| Orchestrator.RemoteDownloadPath | updater.php:412-421 | the first mirror's location, `''` when the release has no mirrors, and afterwards the release is cached |
| Orchestrator.RemoteReadsMemoised | updater.php:369-371 | reading the version, the checksum or the download path a second time answers the same, with no effect and no change to the world |
| Orchestrator.LocalVersion | updater.php:426-440 | the installed version has three components and is (0, 0, 0) without a marker file |
| Orchestrator.IsOutdated | updater.php:277-282 | outdated exactly when the installed version is lexicographically below the remote one |
| Orchestrator.ValidateRemoteDownload | updater.php:258-272 | succeeds exactly when some listed regular file is accepted against the run's checksum; on success it records the path of the first such file; on failure the recorded path is unchanged |
| Orchestrator.LoadFileFromServer | updater.php:229-253 | a failed transfer fails; otherwise the outcome is the verification's; on success the recorded path is the first accepted file's; it downloads only its URL and emits only download-phase effects |
| Orchestrator.DownloadTeamspeakVersion | updater.php:183-193 | succeeds exactly when the scratch was prepared, the first mirror is not empty, the transfer worked and a file matched; on success the recorded path is the first accepted file's; it starts with Prepare; it fetches the manifest at most once, as its second effect, and only with an empty cache |
| Orchestrator.ExtractDownloadFile | updater.php:124-139 | for an archive's content, a payload root exactly when its extraction succeeds and a marker file exists, and then it is the located one |
| Orchestrator.MergeSpec | updater.php:116-117 | after the merge a name is present exactly when the payload has a visible file of that name or the base had one; the payload's content wins |
| Orchestrator.CopyExtractedData | updater.php:109-118 | the live directory exists afterwards and is created exactly when it was missing; the copy is the last effect and no service effect occurs |
| Orchestrator.CopyIsAdditive | updater.php:109-118 | the copy adds or overwrites the payload's visible files and keeps every other live file |
| Orchestrator.SendCommand | updater.php:446-463 | only `start` and `stop` do anything, and only when the start script exists; then they emit exactly Start or Stop |
| Orchestrator.PublishPayload | updater.php:96-101 | after publishing, the marker holds the version text and a line end; Stop occurs exactly when the script existed before; Start occurs exactly when it exists after the copy |
| Orchestrator.InstallDownloadVersion | updater.php:90-104 | copies exactly when a download path is recorded, a file exists there, its extraction works and a root is found; stops only then and with the start script present; never cleans up; changes the live directory only by copying |
| Orchestrator.InstallPayload | updater.php:94-101 | a located root is always copied, and the service is stopped exactly when the start script exists |
| Orchestrator.InstallStampsRemoteVersion | updater.php:171-177 | a completed installation leaves the marker holding the run's remote version text and a line end |
| Orchestrator.ForceUpdate | updater.php:63-66 | forceUpdate starts by preparing the scratch directory, with no version check before it |
| Sequencing.NoPublishNoServiceEffects | updater.php:90-104 | an update that does not get as far as publishing does not stop, copy or start, and leaves the live directory unchanged |
| Sequencing.PublishTrace | updater.php:96-101 | the publishing trace is stamp, chown, the stop command, then CreateLive and its chown exactly when the live directory is missing (nothing otherwise), copy, then the start command |
| Sequencing.InstallTrace | updater.php:90-104 | a completed installation is extraction and location, then publishing the payload stamped with the cached version |
| Sequencing.PublishingTrace | updater.php:71-77 | a publishing update (`Orchestrator.UpdateTsServer`) is the download phase, extraction, stamping, the stop command, copy, the start command and finally cleanup |
| Sequencing.PublishHeadEffects | updater.php:73-97 | before the stop command a publishing update has downloaded, verified, extracted and located, with no service, copy or cleanup effect |
| Sequencing.PublishingStamps | updater.php:171-177 | after a publishing update the live marker holds the run's version text |
| Sequencing.InstalledPayloadIsVerified | updater.php:92-100 | whatever an update copies comes from the first listed regular file whose digest is the checksum: afterwards the live directory is that archive's payload root, stamped and merged over the old one |
| Sequencing.StopRequiresPublishing | updater.php:93-99 | the service is stopped only by an update that publishes, and only with the start script present |
| Sequencing.StoppingTrace | updater.php:96-101 | an update that stops has exactly one window: stop, the effects between, copy, start, cleanup |
| Sequencing.StopOnlyAfterVerifiedPayload | updater.php:73-99 | Stop occurs only after a verified download, an extraction and a located root, and those effects precede it in the trace |
| Sequencing.StopIsFollowedByCopyThenStart | updater.php:99-101 | once the service is stopped, Copy and then Start follow; each of the three occurs exactly once, in that order |
| Sequencing.FailedDownloadTouchesNothing | updater.php:73-76 | a failed download emits no Stop, Start, Copy or Cleanup and leaves the live directory unchanged |
| Sequencing.CleanupOnlyAfterDownload | updater.php:73-76 | in `Orchestrator.UpdateTsServer`, cleanup happens exactly when the download succeeded, exactly once, as the last effect |
| Sequencing.DownloadOnlyFromFirstMirror | updater.php:185-189 | the only URL downloaded is the first mirror's location, after the scratch is prepared, and only when it is not empty |
| Sequencing.NoMirrorNoDownload | updater.php:186-188 | without a usable mirror the update downloads nothing and touches neither the service nor the scratch cleanup |
| Sequencing.ForceUpdateCopiesIffPublishes | updater.php:63-66 | forceUpdate copies exactly when the update gets as far as publishing, whatever the installed version |
| Sequencing.InstallFetchesNothing | updater.php:369-371 | with the release cached, the installation fetches no manifest |
| Sequencing.DownloadFetchesAtMostOnce | updater.php:369-371 | the download phase fetches the manifest at most once |
| Sequencing.UpdateFetchesAtMostOnce | updater.php:369-371 | an update fetches the manifest at most once, and not at all when the release is already cached |
| Sequencing.MainUpdatesOnlyWhenOutdated | updater.php:49-58 | main (`Orchestrator.Main`) updates (prepares a download) exactly when the installed version is outdated, and fetches the manifest exactly once |
| Sequencing.NewerLocalNeverUpdates | updater.php:52-57 | an installed version equal to or above the remote one is never replaced and the service is never stopped |
| Sequencing.PublishedVersionReadsBack | updater.php:174-176 | after an update that copied, the installed version reads back as the run's remote version |
| Sequencing.SecondRunIsNoOp | updater.php:49-58 | a second run after a publishing run finds the installation up to date and changes nothing |
| Sequencing.LiveChangesOnlyByCopy | updater.php:90-118 | a run changes the live directory only through the copy step |
| Sequencing.UnknownHostNeverTouchesService | updater.php:315-337 | on a host outside the platform tables, main never downloads, stops, copies or starts |

## Left out

- The HTTP fetch and JSON decoding of the manifest (`loadRemoteManifest`) are left out because they are network I/O and a foreign decoder. The manifest is the already-decoded nested map, and a failed fetch or an unparseable body is the empty map. The fetch shows only as the `FetchManifest` effect.
- Version, checksum and mirror-location values that are not strings are left out. Under strict types they raise a type error, which is outside the decision logic. A `mirrors` value that is not an array yields `''`, because `foreach` only warns (`updater.php:415-420`); the model reaches the same answer through an empty mirror list.
- The curl transfer, its user agent and its file handles (`loadFileFromServer` before the verification) are network I/O. They are modelled as the `transferred` outcome.
- The `exec` calls of chown, rm and sudo, and the `sleep` after a service command, are external processes and timing. They appear only as trace effects. The rsync call is the exception: besides its `Copy` effect it is modelled as a merge of the payload root into the live directory (`Orchestrator.MergeSpec`).
- Orchestrator.CopyExtractedData, Orchestrator.CopyIsAdditive, Orchestrator.PublishPayload, Orchestrator.InstallStampsRemoteVersion, Sequencing.PublishingStamps, Sequencing.InstalledPayloadIsVerified, Sequencing.PublishedVersionReadsBack, Sequencing.SecondRunIsNoOp: the copy, the marker write and the creation of the live directory are assumed to succeed. updater.php ignores rsync's exit status (`updater.php:117`), the result of file_put_contents (`updater.php:176`) and the result of mkdir (`updater.php:112`). When rsync fails, the real script still stops and starts the service and removes the scratch directory, and the installed marker keeps the old version; these members do not cover that run.
- The `rsync -a -I` copy is modelled on top-level regular files only. Subdirectories of the payload and of the live directory are left out; that tree copy is rsync's own behaviour.
- PharData extraction is a foreign library call. It is modelled as `unpack`, a function of the archive's content that answers `None` when the extraction throws.
- Integrity.VerifiedArchive and Sequencing.InstalledPayloadIsVerified assume the scratch listing names each path once, as a directory listing does; the model's listing type does not enforce it.
- The sha256 implementation is a foreign function. It is the `hash` parameter, whose results are 64 lower-case hex digits.
- The temp-name nonces from `microtime`, `md5` and `crc32`, and the `mkdir` modes, do not influence any decision.
- Preparing the scratch directory (`prepareDownloadLocation`: rm, mkdir, the listing count of 2) is filesystem I/O. It is modelled as the `prepared` outcome.
- The real order of directory iteration is given by the listings of the model's trees; the iteration itself is left out.
- The `realpath` call on the located directory is filesystem I/O. The located root is named by its path inside the extracted tree.
- `php_uname` is I/O. The host is a parameter, and its platform key is computed once per run (`Orchestrator.HostEnv`) instead of at every cache miss. Both give the same answer within a run.
- PhpStrings.IntCast, PhpStrings.ReadDigitsStops, PhpStrings.IntCastReadsDigitRun, PhpStrings.IntCastReadsNegatedDigitRun: the exponent form of numeric strings (`"1e3"` casts to 1000) and the saturation at the 64-bit integer bounds are left out. Version parts in practice are short digit runs.
- The echo of "version is outdated" / "version is up to date" is output only. The model's `Main` returns the verdict instead.
- Orchestrator.PublishPayload: the `Stamp` effect does not carry the version text. The text is stated on the resulting live marker file instead (`Orchestrator.InstallStampsRemoteVersion`).
