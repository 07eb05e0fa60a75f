/** The update orchestration of TSUpdater as a state machine over a run's
    world (the run cache and the live installation directory) that emits a
    trace of abstract effects. Everything the updater learns from outside —
    the host, the manifest, the hash, whether a step of I/O worked, what a
    directory listing holds — is part of the environment `Env`. */
module Orchestrator {
  import opened Wrappers
  import opened PhpStrings
  import opened Versions
  import opened Platform
  import opened Manifest
  import opened Integrity
  import opened Payload

  /** The marker file recording the installed version. */
  const VersionFile := "CURRENT_VERSION"

  /** The service's start/stop script inside the live installation. */
  const StartScript := "ts3server_startscript.sh"

  /** Directories handed to `chown -R teamspeak:nogroup`. */
  datatype Owned = PayloadRoot | LiveRoot

  datatype Effect =
    | FetchManifest        // HTTP GET of the release manifest
    | Prepare              // rm -r of the scratch directory, mkdir, emptiness check
    | Download(url: string) // curl of the release archive into scratch
    | Verify               // sha256 of the scratch files against the checksum
    | Extract              // PharData extraction into scratch
    | Locate               // the walk for the payload root
    | Stamp                // the version marker written into the payload root
    | Chown(target: Owned)
    | CreateLive           // mkdir of the missing live directory
    | Stop                 // the start script run with `stop`, then the settle delay
    | Copy                 // rsync -a -I of the payload root into the live directory
    | Start                // the start script run with `start`, then the settle delay
    | Cleanup              // rm -r of the scratch directory

  /** The live installation directory: None when it does not exist, else
      its top-level regular files by name. */
  type LiveDir = Option<map<string, string>>

  /** TSUpdater::$runtimeCache. */
  datatype Cache = Cache(release: Option<Release>, downloadFilePath: Option<string>)

  datatype World = World(cache: Cache, live: LiveDir)

  /** The result of one step: its value, the world after it, its effects. */
  datatype Step<T> = Step(value: T, world: World, effects: seq<Effect>)

  /** How the steps of I/O turn out in this run. */
  datatype Outcomes = Outcomes(
    prepared: bool,                  // scratch recreated and found empty
    transferred: bool,               // curl_exec succeeded
    listing: seq<ScratchEntry>)      // the scratch directory after the transfer

  /** The environment of a run. `platform` is getSystemArchitecture's
      answer for the host; it depends on php_uname alone, so it is computed
      once per run (`HostEnv`) rather than at each read of the release.
      `hash` is hash_file('sha256', ...) and `unpack` is PharData's
      extraction, both as functions of a file's content; `unpack` answers
      None when the extraction throws. */
  datatype Env = Env(platform: PlatformKey, manifest: Manifest, hash: string -> Digest,
                     unpack: string -> Option<seq<Node>>, outcomes: Outcomes)

  /** The environment of a run on `host`. A convenience for callers: its
      contract only says where the platform key and the manifest come from. */
  function HostEnv(host: Host, manifest: Manifest, hash: string -> Digest,
                   unpack: string -> Option<seq<Node>>, outcomes: Outcomes): (env: Env)
    ensures env.platform == SystemArchitecture(host) && env.manifest == manifest
  {
    Env(SystemArchitecture(host), manifest, hash, unpack, outcomes)
  }

  /** The run's first world: an empty cache (main() resets it). */
  function FreshWorld(live: LiveDir): World {
    World(Cache(None, None), live)
  }

  // ---------------------------------------------------------------- remote release, memoised

  /** getRemoteReleaseData: the cached release if there is one, else the
      release selected from the fetched manifest, which is then cached (the
      empty release included). */
  function ReleaseData(w: World, env: Env): (s: Step<Release>)
    ensures s.world.live == w.live && s.world.cache.downloadFilePath == w.cache.downloadFilePath
    ensures s.world.cache.release == Some(s.value)
    ensures w.cache.release.Some? ==> s.value == w.cache.release.value && s.effects == []
    ensures w.cache.release.None? ==>
              s.value == SelectRelease(env.platform, env.manifest)
              && s.effects == [FetchManifest]
  {
    match w.cache.release
    case Some(r) => Step(r, w, [])
    case None =>
      var r := SelectRelease(env.platform, env.manifest);
      Step(r, w.(cache := w.cache.(release := Some(r))), [FetchManifest])
  }

  /** The release every read of this run sees. */
  function RunRelease(w: World, env: Env): Release {
    ReleaseData(w, env).value
  }

  /** A second read of the release data fetches nothing and returns the
      same release: within a run the manifest is fetched at most once. */
  lemma ReleaseDataMemoised(w: World, env: Env)
    ensures var first := ReleaseData(w, env);
      var second := ReleaseData(first.world, env);
      && second.value == first.value
      && second.effects == []
      && second.world == first.world
      && |first.effects| <= 1
  {
  }

  /** getRemoteVersion: three ints, 0.0.0 for a release without a version;
      afterwards the release is cached, so a further read costs nothing. */
  function RemoteVersion(w: World, env: Env): (s: Step<seq<int>>)
    ensures |s.value| == 3
    ensures RunRelease(w, env).version.None? ==> s.value == [0, 0, 0]
    ensures ReleaseData(s.world, env) == Step(RunRelease(w, env), s.world, [])
    ensures s.value == ReleaseVersion(RunRelease(w, env))
    ensures s.world == ReleaseData(w, env).world && s.effects == ReleaseData(w, env).effects
  {
    var r := ReleaseData(w, env);
    Step(ReleaseVersion(r.value), r.world, r.effects)
  }

  /** getRemoteChecksum: the release's checksum field, `""` when the release
      has none; afterwards the release is cached. */
  function RemoteChecksum(w: World, env: Env): (s: Step<string>)
    ensures RunRelease(w, env).checksum.None? ==> s.value == ""
    ensures RunRelease(w, env).checksum.Some? ==> s.value == RunRelease(w, env).checksum.value
    ensures ReleaseData(s.world, env) == Step(RunRelease(w, env), s.world, [])
    ensures s.value == ReleaseChecksum(RunRelease(w, env))
    ensures s.world == ReleaseData(w, env).world && s.effects == ReleaseData(w, env).effects
  {
    var r := ReleaseData(w, env);
    Step(ReleaseChecksum(r.value), r.world, r.effects)
  }

  /** getRemoteDownloadPath: the first mirror's location, `""` when the
      release has no mirror; afterwards the release is cached. */
  function RemoteDownloadPath(w: World, env: Env): (s: Step<string>)
    ensures RunRelease(w, env).mirrors == [] ==> s.value == ""
    ensures RunRelease(w, env).mirrors != [] ==> s.value == RunRelease(w, env).mirrors[0].location
    ensures ReleaseData(s.world, env) == Step(RunRelease(w, env), s.world, [])
    ensures s.value == FirstMirror(RunRelease(w, env))
    ensures s.world == ReleaseData(w, env).world && s.effects == ReleaseData(w, env).effects
  {
    var r := ReleaseData(w, env);
    Step(FirstMirror(r.value), r.world, r.effects)
  }

  /** Reading the version, the checksum or the download path a second time
      answers the same, with no effect and no change to the world. */
  lemma RemoteReadsMemoised(w: World, env: Env)
    ensures var v := RemoteVersion(w, env); RemoteVersion(v.world, env) == Step(v.value, v.world, [])
    ensures var c := RemoteChecksum(w, env); RemoteChecksum(c.world, env) == Step(c.value, c.world, [])
    ensures var p := RemoteDownloadPath(w, env); RemoteDownloadPath(p.world, env) == Step(p.value, p.world, [])
  {
  }

  // ---------------------------------------------------------------- version check

  /** The marker file's content, when the live directory holds it. */
  function MarkerContent(live: LiveDir): Option<string> {
    if live.Some? && VersionFile in live.value then Some(live.value[VersionFile]) else None
  }

  /** getLocalVersion over the live directory. */
  function LocalVersion(live: LiveDir): (v: seq<int>)
    ensures |v| == 3
    ensures MarkerContent(live).None? ==> v == [0, 0, 0]
  {
    LocalVersionOf(MarkerContent(live))
  }

  /** isTSServerOutdated: outdated exactly when the installed version is
      lexicographically below the remote one (both have three components). */
  function IsOutdated(w: World, env: Env): (s: Step<bool>)
    ensures s.value <==> LexLess(LocalVersion(w.live), ReleaseVersion(RunRelease(w, env)))
    ensures s.value <==> CompareVersions(LocalVersion(w.live), ReleaseVersion(RunRelease(w, env))) == -1
    ensures s.world == ReleaseData(w, env).world && s.effects == ReleaseData(w, env).effects
  {
    var remote := RemoteVersion(w, env);
    CompareVersionsLexicographic(LocalVersion(w.live), remote.value);
    Step(CompareVersions(LocalVersion(w.live), remote.value) == -1, remote.world, remote.effects)
  }

  // ---------------------------------------------------------------- download and verification

  /** The effects of the download phase, none of which touches the service
      or the live directory. */
  predicate DownloadPhase(e: Effect) {
    e.FetchManifest? || e.Prepare? || e.Download? || e.Verify?
  }

  /** validateRemoteDownload: on a match the first matching file is
      recorded as downloadFilePath. */
  function ValidateRemoteDownload(w: World, env: Env): (s: Step<bool>)
    ensures s.value <==> exists i :: 0 <= i < |env.outcomes.listing|
                          && Accepts(env.outcomes.listing[i], ReleaseChecksum(RunRelease(w, env)), env.hash)
    ensures s.value ==> s.world.cache.downloadFilePath.Some? && s.world.cache.release.Some?
    ensures s.value ==> s.world.cache.downloadFilePath
                        == VerifiedDownload(env.outcomes.listing, ReleaseChecksum(RunRelease(w, env)), env.hash)
    ensures !s.value ==> s.world.cache.downloadFilePath == w.cache.downloadFilePath
    ensures s.world.live == w.live && s.world.cache.release == Some(RunRelease(w, env))
    ensures s.effects == ReleaseData(w, env).effects + [Verify]
  {
    var c := RemoteChecksum(w, env);
    match VerifiedDownload(env.outcomes.listing, c.value, env.hash)
    case Some(path) =>
      Step(true, c.world.(cache := c.world.cache.(downloadFilePath := Some(path))), c.effects + [Verify])
    case None =>
      Step(false, c.world, c.effects + [Verify])
  }

  /** loadFileFromServer: a failed transfer is a failed download; otherwise
      the outcome of the verification. */
  function LoadFileFromServer(w: World, env: Env, url: string): (s: Step<bool>)
    ensures s.value ==> env.outcomes.transferred && ValidateRemoteDownload(w, env).value
    ensures env.outcomes.transferred ==> s.value == ValidateRemoteDownload(w, env).value
    ensures s.value ==> s.world.cache.downloadFilePath.Some? && s.world.cache.release.Some?
    ensures s.value ==> s.world.cache.downloadFilePath
                        == VerifiedDownload(env.outcomes.listing, ReleaseChecksum(RunRelease(w, env)), env.hash)
    ensures s.world.live == w.live
    ensures s.world.cache.release == w.cache.release || s.world.cache.release == Some(RunRelease(w, env))
    ensures |s.effects| > 0 && s.effects[0] == Download(url)
    ensures forall e :: e in s.effects ==> DownloadPhase(e)
    ensures forall e :: e in s.effects && e.Download? ==> e == Download(url)
    ensures w.cache.release.Some? ==> FetchManifest !in s.effects
  {
    if !env.outcomes.transferred then Step(false, w, [Download(url)])
    else
      var v := ValidateRemoteDownload(w, env);
      Step(v.value, v.world, [Download(url)] + v.effects)
  }

  /** The download phase succeeds: scratch prepared, a non-empty first
      mirror, a completed transfer and a scratch file with the expected
      digest. */
  ghost predicate DownloadSucceeds(r: Release, env: Env) {
    && env.outcomes.prepared
    && !PhpEmpty(FirstMirror(r))
    && env.outcomes.transferred
    && exists i :: 0 <= i < |env.outcomes.listing|
         && Accepts(env.outcomes.listing[i], ReleaseChecksum(r), env.hash)
  }

  /** downloadTeamspeakVersion. */
  function DownloadTeamspeakVersion(w: World, env: Env): (s: Step<bool>)
    ensures s.value <==> DownloadSucceeds(RunRelease(w, env), env)
    ensures s.value ==> s.world.cache.downloadFilePath.Some? && s.world.cache.release.Some?
    ensures s.value ==> s.world.cache.downloadFilePath
                        == VerifiedDownload(env.outcomes.listing, ReleaseChecksum(RunRelease(w, env)), env.hash)
    ensures s.world.live == w.live
    ensures RunRelease(s.world, env) == RunRelease(w, env)
    ensures forall e :: e in s.effects ==> DownloadPhase(e)
    ensures |s.effects| > 0 && s.effects[0] == Prepare
    ensures s.value ==> Download(FirstMirror(RunRelease(w, env))) in s.effects && Verify in s.effects
    ensures FetchManifest in s.effects ==>
              w.cache.release.None? && s.effects[1] == FetchManifest && FetchManifest !in s.effects[2..]
  {
    if !env.outcomes.prepared then Step(false, w, [Prepare])
    else
      var p := RemoteDownloadPath(w, env);
      if PhpEmpty(p.value) then Step(false, p.world, [Prepare] + p.effects)
      else
        var l := LoadFileFromServer(p.world, env, p.value);
        Step(l.value, l.world, [Prepare] + p.effects + l.effects)
  }

  // ---------------------------------------------------------------- installation

  /** extractDownloadFile of the archive with content `archive`: the
      located payload root, None when extraction throws or no marker file
      exists (both `''` in the source). */
  function ExtractDownloadFile(env: Env, archive: string): (r: (Option<Found>, seq<Effect>))
    ensures r.0.Some? <==> env.unpack(archive).Some? && LocatePayloadRoot(env.unpack(archive).value).Some?
    ensures r.0.Some? ==> r.0 == LocatePayloadRoot(env.unpack(archive).value) && r.1 == [Extract, Locate]
    ensures r.0.None? ==> r.1 == [Extract] || r.1 == [Extract, Locate]
  {
    match env.unpack(archive)
    case None => (None, [Extract])
    case Some(tree) => (LocatePayloadRoot(tree), [Extract, Locate])
  }

  /** A directory's regular files as (name, content), in listing order. */
  type Files = seq<(string, string)>

  /** The regular files directly inside a directory listing. */
  function TopFiles(entries: seq<Node>): Files
  {
    if |entries| == 0 then []
    else match entries[0]
      case File(name, content) => [(name, content)] + TopFiles(entries[1..])
      case Dir(_, _) => TopFiles(entries[1..])
  }

  /** injectVersionFile: the marker file, holding the version text and a
      line end, written into the payload root after (so over) the files the
      archive put there. */
  function StampVersion(files: Files, text: string): Files
  {
    files + [(VersionFile, text + "\n")]
  }

  /** A name the shell glob `*` does not match. */
  predicate IsHidden(name: string) {
    |name| > 0 && name[0] == '.'
  }

  /** What the copy writes for `name`: the content of the last file of
      that name in the payload, provided the glob matches the name. */
  function Written(files: Files, name: string): Option<string>
  {
    if |files| == 0 || IsHidden(name) then None
    else if files[|files| - 1].0 == name then Some(files[|files| - 1].1)
    else Written(files[..|files| - 1], name)
  }

  /** `rsync -a -I` of the payload glob into the live directory: every visible payload file, in
      order, written over the live directory's files. */
  function Merge(base: map<string, string>, files: Files): map<string, string>
  {
    if |files| == 0 then base
    else
      var merged := Merge(base, files[..|files| - 1]);
      var file := files[|files| - 1];
      if IsHidden(file.0) then merged else merged[file.0 := file.1]
  }

  /** The merge is additive: after it a name is present exactly when the
      payload has a visible file of that name or the live directory had
      one, and it holds the payload's content if there is one, else the old
      content. */
  lemma {:induction false} MergeSpec(base: map<string, string>, files: Files, name: string)
    ensures name in Merge(base, files) <==> Written(files, name).Some? || name in base
    ensures Written(files, name).Some? ==> Merge(base, files)[name] == Written(files, name).value
    ensures Written(files, name).None? && name in base ==> Merge(base, files)[name] == base[name]
  {
    if |files| > 0 {
      MergeSpec(base, files[..|files| - 1], name);
    }
  }

  /** copyExtractedData: create the live directory when it is missing, then
      merge the payload's visible files over it. */
  function CopyExtractedData(live: LiveDir, payload: Files): (r: (LiveDir, seq<Effect>))
    ensures r.0.Some?
    ensures |r.1| > 0 && r.1[|r.1| - 1] == Copy
    ensures Stop !in r.1 && Start !in r.1 && Copy !in r.1[..|r.1| - 1] && Cleanup !in r.1
    ensures FetchManifest !in r.1 && Prepare !in r.1 && Verify !in r.1
    ensures live.None? <==> CreateLive in r.1
  {
    var base := if live.None? then map[] else live.value;
    var created := if live.None? then [CreateLive, Chown(LiveRoot)] else [];
    (Some(Merge(base, payload)), created + [Copy])
  }

  /** After the copy, a name is in the live directory exactly when the
      payload has a visible file of that name or the live directory had
      one; the payload's content wins. */
  lemma CopyIsAdditive(live: LiveDir, payload: Files, name: string)
    ensures var after := CopyExtractedData(live, payload).0.value;
      && (name in after <==> Written(payload, name).Some? || (live.Some? && name in live.value))
      && (Written(payload, name).Some? ==> after[name] == Written(payload, name).value)
      && (Written(payload, name).None? && live.Some? && name in live.value ==> after[name] == live.value[name])
  {
    MergeSpec(if live.None? then map[] else live.value, payload, name);
  }

  predicate StartScriptPresent(live: LiveDir) {
    live.Some? && StartScript in live.value
  }

  /** sendTSCommand: only `start` and `stop` do anything, and only when the
      start script exists. */
  function SendCommand(live: LiveDir, command: string): (effects: seq<Effect>)
    ensures command != "start" && command != "stop" ==> effects == []
    ensures !StartScriptPresent(live) ==> effects == []
    ensures command == "stop" && StartScriptPresent(live) ==> effects == [Stop]
    ensures command == "start" && StartScriptPresent(live) ==> effects == [Start]
  {
    if (command == "start" || command == "stop") && StartScriptPresent(live) then
      [if command == "stop" then Stop else Start]
    else []
  }

  /** The second half of installDownloadVersion: stamp the payload root
      with the version text, stop the service, merge the payload into the
      live directory and start the service again. The service commands are
      sent only when the start script exists at that moment, so the start
      may also follow a copy that brought the script in. */
  function PublishPayload(live: LiveDir, text: string, entries: seq<Node>): (r: (LiveDir, seq<Effect>))
    ensures MarkerContent(r.0) == Some(text + "\n")
    ensures Stop in r.1 <==> StartScriptPresent(live)
    ensures Start in r.1 <==> StartScriptPresent(r.0)
    ensures StartScriptPresent(live) ==> StartScriptPresent(r.0)
    ensures Copy in r.1 && Stamp in r.1
    ensures Cleanup !in r.1 && FetchManifest !in r.1 && Prepare !in r.1 && Verify !in r.1
  {
    var payload := StampVersion(TopFiles(entries), text);
    var stop := SendCommand(live, "stop");
    var published := CopyExtractedData(live, payload);
    var start := SendCommand(published.0, "start");
    CopyIsAdditive(live, payload, VersionFile);
    CopyIsAdditive(live, payload, StartScript);
    assert !IsHidden(VersionFile);
    assert Written(payload, VersionFile) == Some(text + "\n");
    (published.0, [Stamp, Chown(PayloadRoot)] + stop + published.1 + start)
  }

  /** The tree unpacked from the file recorded as downloadFilePath, when a
      path is recorded, a file exists there, and its extraction succeeds. */
  function RecordedTree(w: World, env: Env): Option<seq<Node>> {
    match w.cache.downloadFilePath
    case None => None
    case Some(path) =>
      match ArchiveContent(env.outcomes.listing, path)
      case None => None
      case Some(archive) => env.unpack(archive)
  }

  /** installDownloadVersion gets as far as copying: the recorded archive
      is there, extracts, and holds a payload root with a marker file. */
  ghost predicate Installs(w: World, env: Env) {
    RecordedTree(w, env).Some? && LocatePayloadRoot(RecordedTree(w, env).value).Some?
  }

  /** installDownloadVersion. */
  function InstallDownloadVersion(w: World, env: Env): (s: Step<()>)
    ensures Cleanup !in s.effects
    ensures Copy in s.effects <==> Installs(w, env)
    ensures Stop in s.effects ==> Installs(w, env) && StartScriptPresent(w.live)
    ensures s.world.live != w.live ==> Copy in s.effects
  {
    match w.cache.downloadFilePath
    case None => Step((), w, [])
    case Some(path) =>
      match ArchiveContent(env.outcomes.listing, path)
      case None => Step((), w, [])
      case Some(archive) =>
        var x := ExtractDownloadFile(env, archive);
        match x.0
        case None => Step((), w, x.1)
        case Some(found) =>
          var v := RemoteVersion(w, env);
          InstallPayload(v.world, v.effects, found, VersionText(v.value))
  }

  /** The rest of installDownloadVersion once the payload root is found:
      stamp it with `text`, the run's version text (read after `fetched`,
      the effects of that read), and publish it. */
  function InstallPayload(w: World, fetched: seq<Effect>, found: Found, text: string): (s: Step<()>)
    requires forall e :: e in fetched ==> e == FetchManifest
    ensures Cleanup !in s.effects && Copy in s.effects
    ensures Stop in s.effects <==> StartScriptPresent(w.live)
    ensures FetchManifest in s.effects <==> FetchManifest in fetched
  {
    var p := PublishPayload(w.live, text, found.entries);
    var head := [Extract, Locate] + fetched;
    AfterQuietHead(head, p.1);
    Step((), World(w.cache, p.0), head + p.1)
  }

  /** A completed installation leaves the marker file holding the text of
      the run's remote version and a line end. */
  lemma InstallStampsRemoteVersion(w: World, env: Env)
    requires w.cache.release.Some? && Installs(w, env)
    ensures MarkerContent(InstallDownloadVersion(w, env).world.live)
            == Some(VersionText(ReleaseVersion(w.cache.release.value)) + "\n")
  {
  }

  /** updateTsServer: install and clean up only after a successful download. */
  function UpdateTsServer(w: World, env: Env): Step<()>
  {
    var d := DownloadTeamspeakVersion(w, env);
    if !d.value then Step((), d.world, d.effects)
    else
      var i := InstallDownloadVersion(d.world, env);
      Step((), i.world, d.effects + i.effects + [Cleanup])
  }

  /** forceUpdate: the update without the version check, on whatever the
      run cache holds; its first effect is the scratch preparation, not a
      manifest fetch. */
  function ForceUpdate(w: World, env: Env): (s: Step<()>)
    ensures |s.effects| > 0 && s.effects[0] == Prepare
  {
    UpdateTsServer(w, env)
  }

  /** main: a fresh cache, the version check, and an update only when the
      installed version is outdated. The value is what main reports. */
  function Main(env: Env, live: LiveDir): Step<bool>
  {
    var o := IsOutdated(FreshWorld(live), env);
    if o.value then
      var u := UpdateTsServer(o.world, env);
      Step(true, u.world, o.effects + u.effects)
    else Step(false, o.world, o.effects)
  }

  // ---------------------------------------------------------------- traces

  /** A trace that starts with a head free of service, copy and cleanup
      effects has those effects exactly where its tail has them. */
  lemma AfterQuietHead(head: seq<Effect>, tail: seq<Effect>)
    requires forall e :: e in head ==> e in {Extract, Locate, FetchManifest}
    ensures Cleanup in head + tail <==> Cleanup in tail
    ensures Copy in head + tail <==> Copy in tail
    ensures Stop in head + tail <==> Stop in tail
    ensures FetchManifest !in tail ==> (FetchManifest in head + tail <==> FetchManifest in head)
  {
  }

  function Count(t: seq<Effect>, e: Effect): nat
  {
    if |t| == 0 then 0 else (if t[0] == e then 1 else 0) + Count(t[1..], e)
  }

  lemma {:induction false} CountAppend(a: seq<Effect>, b: seq<Effect>, e: Effect)
    ensures Count(a + b, e) == Count(a, e) + Count(b, e)
  {
    if |a| > 0 {
      CountAppend(a[1..], b, e);
      assert (a + b)[1..] == a[1..] + b;
    } else {
      assert a + b == b;
    }
  }

  lemma {:induction false} CountAbsent(t: seq<Effect>, e: Effect)
    requires e !in t
    ensures Count(t, e) == 0
  {
    if |t| > 0 {
      CountAbsent(t[1..], e);
    }
  }

  /** The position of the first occurrence of `e`. */
  function IndexOf(t: seq<Effect>, e: Effect): (k: nat)
    requires e in t
    ensures k < |t| && t[k] == e && e !in t[..k]
  {
    if t[0] == e then 0
    else
      var k := IndexOf(t[1..], e) + 1;
      assert t[..k] == [t[0]] + t[1..][..k - 1];
      k
  }
}
