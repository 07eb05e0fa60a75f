/** Properties of the orchestration traces: when the service is stopped,
    what always follows a stop, what a failed download leaves untouched,
    when the scratch directory is cleaned up, how often the manifest is
    fetched, and the version a published installation reports. */
module Sequencing {
  import opened Wrappers
  import opened PhpStrings
  import opened Versions
  import opened Platform
  import opened Manifest
  import opened Integrity
  import opened Payload
  import opened Orchestrator

  /** The update gets as far as publishing: the download phase succeeded,
      and the archive it recorded extracts and holds a payload root. */
  ghost predicate Publishes(w: World, env: Env) {
    && DownloadSucceeds(RunRelease(w, env), env)
    && Installs(DownloadTeamspeakVersion(w, env).world, env)
  }

  /** An update that does not publish touches neither the service nor the
      live directory. */
  lemma NoPublishNoServiceEffects(w: World, env: Env)
    requires !Publishes(w, env)
    ensures var s := UpdateTsServer(w, env);
      && Stop !in s.effects && Copy !in s.effects && Start !in s.effects
      && s.world.live == w.live
  {
    var d := DownloadTeamspeakVersion(w, env);
    if d.value {
      var i := InstallDownloadVersion(d.world, env);
      assert i.world == d.world;
      assert i.effects == [] || i.effects == [Extract] || i.effects == [Extract, Locate];
      QuietTrace(d.effects, i.effects);
    }
  }

  /** A download phase followed by at most the extraction and the cleanup
      holds no service or copy effect. */
  lemma QuietTrace(d: seq<Effect>, i: seq<Effect>)
    requires forall e :: e in d ==> DownloadPhase(e)
    requires forall e :: e in i ==> e == Extract || e == Locate
    ensures Stop !in d + i + [Cleanup] && Copy !in d + i + [Cleanup] && Start !in d + i + [Cleanup]
  {
  }

  /** The trace of publishing a payload, cut at the service commands. */
  lemma PublishTrace(live: LiveDir, text: string, entries: seq<Node>) returns (b: seq<Effect>, start: seq<Effect>)
    ensures var p := PublishPayload(live, text, entries);
      && p.1 == [Stamp, Chown(PayloadRoot)] + SendCommand(live, "stop") + b + [Copy] + start
      && b == (if live.None? then [CreateLive, Chown(LiveRoot)] else [])
      && Stop !in b && Copy !in b && Start !in b && Cleanup !in b && FetchManifest !in b
      && (start == [] || start == [Start])
      && (StartScriptPresent(live) ==> start == [Start])
  {
    var p := PublishPayload(live, text, entries);
    var published := CopyExtractedData(live, StampVersion(TopFiles(entries), text));
    var head := [Stamp, Chown(PayloadRoot)] + SendCommand(live, "stop");
    start := SendCommand(published.0, "start");
    b := if live.None? then [CreateLive, Chown(LiveRoot)] else [];
    assert p.1 == head + published.1 + start;
    assert published.1 == b + [Copy];
    Flatten(head, b, start);
  }

  /** Dropping the brackets around the copy step. */
  lemma Flatten(head: seq<Effect>, b: seq<Effect>, start: seq<Effect>)
    ensures head + (b + [Copy]) + start == head + b + [Copy] + start
  {
  }

  /** An installation that reaches the payload root: the extraction effects
      followed by publishing the payload stamped with the cached version. */
  lemma InstallTrace(w: World, env: Env)
    requires w.cache.release.Some? && Installs(w, env)
    ensures var s := InstallDownloadVersion(w, env);
      var p := PublishPayload(w.live, VersionText(ReleaseVersion(w.cache.release.value)),
                              LocatePayloadRoot(RecordedTree(w, env).value).value.entries);
      s.effects == [Extract, Locate] + p.1 && s.world.live == p.0
  {
    var v := RemoteVersion(w, env);
    assert v.effects == [] && v.world == w;
    var found := LocatePayloadRoot(RecordedTree(w, env).value).value;
    var i := InstallPayload(w, [], found, VersionText(v.value));
    assert InstallDownloadVersion(w, env) == i;
    assert [Extract, Locate] + [] == [Extract, Locate];
  }

  /** What an update that publishes does before it stops the service: the
      download phase, the extraction, and stamping the payload root. */
  function PublishHead(w: World, env: Env): seq<Effect> {
    DownloadTeamspeakVersion(w, env).effects + [Extract, Locate, Stamp, Chown(PayloadRoot)]
  }

  /** The trace of an update that publishes, cut at the service commands. */
  lemma PublishingTrace(w: World, env: Env) returns (b: seq<Effect>, start: seq<Effect>)
    requires Publishes(w, env)
    ensures var s := UpdateTsServer(w, env);
      && s.effects == PublishHead(w, env) + SendCommand(w.live, "stop") + b + [Copy] + start + [Cleanup]
      && Stop !in b && Copy !in b && Start !in b && Cleanup !in b && FetchManifest !in b
      && (start == [] || start == [Start])
      && (StartScriptPresent(w.live) ==> start == [Start])
  {
    var d := DownloadTeamspeakVersion(w, env);
    var i := InstallDownloadVersion(d.world, env);
    var entries := LocatePayloadRoot(RecordedTree(d.world, env).value).value.entries;
    var text := VersionText(ReleaseVersion(d.world.cache.release.value));
    InstallTrace(d.world, env);
    b, start := PublishTrace(d.world.live, text, entries);
    AssembleTrace(d.effects, i.effects, PublishPayload(d.world.live, text, entries).1,
                  SendCommand(w.live, "stop"), b, start);
  }

  /** The head of a publishing update holds the whole download phase, the
      extraction and the location of the payload root, and none of the
      service, copy or cleanup effects. */
  lemma PublishHeadEffects(w: World, env: Env)
    requires Publishes(w, env)
    ensures var a := PublishHead(w, env);
      && Stop !in a && Copy !in a && Start !in a && Cleanup !in a
      && Download(FirstMirror(RunRelease(w, env))) in a && Verify in a && Extract in a && Locate in a
      && Count(a, FetchManifest) == Count(DownloadTeamspeakVersion(w, env).effects, FetchManifest)
  {
    var d := DownloadTeamspeakVersion(w, env);
    HeadAfterDownload(d.effects);
  }

  /** After an update that publishes, the live marker file holds the run's
      version text. */
  lemma PublishingStamps(w: World, env: Env)
    requires Publishes(w, env)
    ensures MarkerContent(UpdateTsServer(w, env).world.live)
            == Some(VersionText(ReleaseVersion(RunRelease(w, env))) + "\n")
  {
    var d := DownloadTeamspeakVersion(w, env);
    InstallStampsRemoteVersion(d.world, env);
  }

  /** The download effects, then an installation that extracts and
      publishes, then the cleanup, as one flat trace. */
  lemma AssembleTrace(d: seq<Effect>, i: seq<Effect>, p: seq<Effect>,
                      stop: seq<Effect>, b: seq<Effect>, start: seq<Effect>)
    requires i == [Extract, Locate] + p
    requires p == [Stamp, Chown(PayloadRoot)] + stop + b + [Copy] + start
    ensures d + i + [Cleanup]
         == d + [Extract, Locate, Stamp, Chown(PayloadRoot)] + stop + b + [Copy] + start + [Cleanup]
  {
    assert [Extract, Locate] + [Stamp, Chown(PayloadRoot)] == [Extract, Locate, Stamp, Chown(PayloadRoot)];
  }

  /** In a publishing trace a stop can only come from the stop command. */
  lemma StopOnlyInStopCommand(a: seq<Effect>, stop: seq<Effect>, b: seq<Effect>, start: seq<Effect>)
    requires Stop !in a && Stop !in b && Stop !in start
    ensures Stop in a + stop + b + [Copy] + start + [Cleanup] ==> Stop in stop
  {
  }

  /** A download-phase trace followed by the extraction and the stamping
      holds no service, copy or cleanup effect, and as many fetches as the
      download phase. */
  lemma HeadAfterDownload(d: seq<Effect>)
    requires forall e :: e in d ==> DownloadPhase(e)
    ensures var a := d + [Extract, Locate, Stamp, Chown(PayloadRoot)];
      && Stop !in a && Copy !in a && Start !in a && Cleanup !in a
      && Extract in a && Locate in a
      && (forall e :: e in d ==> e in a)
      && Count(a, FetchManifest) == Count(d, FetchManifest)
  {
    var head := [Extract, Locate, Stamp, Chown(PayloadRoot)];
    CountAppend(d, head, FetchManifest);
    CountAbsent(head, FetchManifest);
  }

  /** A download-phase trace holds no service, copy or cleanup effect. */
  lemma DownloadPhaseOnly(t: seq<Effect>)
    requires forall e :: e in t ==> DownloadPhase(e)
    ensures Stop !in t && Copy !in t && Start !in t && Cleanup !in t
  {
  }

  /** The first occurrence of `e` is at `k` when `t[k]` is `e` and no
      earlier element is. */
  lemma IndexOfAt(t: seq<Effect>, e: Effect, k: nat)
    requires k < |t| && t[k] == e && e !in t[..k]
    ensures IndexOf(t, e) == k
  {
    var j := IndexOf(t, e);
    assert forall i :: 0 <= i < k ==> t[..k][i] == t[i];
    assert forall i :: 0 <= i < j ==> t[..j][i] == t[i];
  }

  /** A trace with one service window holds each of stop, copy and start
      exactly once. */
  lemma WindowCounts(a: seq<Effect>, b: seq<Effect>, c: seq<Effect>)
    requires Stop !in a && Copy !in a && Start !in a
    requires Stop !in b && Copy !in b && Start !in b
    requires Stop !in c && Copy !in c && Start !in c
    ensures var t := a + [Stop] + b + [Copy] + [Start] + c;
      Count(t, Stop) == 1 && Count(t, Copy) == 1 && Count(t, Start) == 1
  {
    var t := a + [Stop] + b + [Copy] + [Start] + c;
    forall e | e == Stop || e == Copy || e == Start
      ensures Count(t, e) == 1
    {
      CountAppend(a + [Stop] + b + [Copy] + [Start], c, e);
      CountAppend(a + [Stop] + b + [Copy], [Start], e);
      CountAppend(a + [Stop] + b, [Copy], e);
      CountAppend(a + [Stop], b, e);
      CountAppend(a, [Stop], e);
      CountAbsent(a, e);
      CountAbsent(b, e);
      CountAbsent(c, e);
    }
  }

  /** In a trace with one service window the stop comes right after the
      head `a`, the copy after the effects `b` in between, then the start. */
  lemma WindowOrder(a: seq<Effect>, b: seq<Effect>, c: seq<Effect>)
    requires Stop !in a && Copy !in a && Start !in a
    requires Stop !in b && Copy !in b && Start !in b
    ensures var t := a + [Stop] + b + [Copy] + [Start] + c;
      && IndexOf(t, Stop) == |a| && t[..|a|] == a
      && IndexOf(t, Copy) == |a| + 1 + |b| && IndexOf(t, Start) == |a| + |b| + 2
  {
    var t := a + [Stop] + b + [Copy] + [Start] + c;
    assert t[..|a|] == a;
    IndexOfAt(t, Stop, |a|);
    assert t[..|a| + 1 + |b|] == a + [Stop] + b;
    IndexOfAt(t, Copy, |a| + 1 + |b|);
    assert t[..|a| + |b| + 2] == a + [Stop] + b + [Copy];
    IndexOfAt(t, Start, |a| + |b| + 2);
  }

  /** What an update copies into the live directory comes from the first
      regular file of the scratch listing whose digest is the release's
      checksum: the live directory afterwards is that archive's payload
      root, stamped with the run's version, merged over the old one. A file
      that does not pass the integrity gate is never installed. */
  lemma InstalledPayloadIsVerified(w: World, env: Env)
    requires DistinctPaths(env.outcomes.listing)
    ensures var s := UpdateTsServer(w, env);
      var checksum := ReleaseChecksum(RunRelease(w, env));
      var k := FindVerified(env.outcomes.listing, checksum, env.hash);
      Copy in s.effects ==>
        && k.Some?
        && env.hash(env.outcomes.listing[k.value].content) == checksum
        && env.unpack(env.outcomes.listing[k.value].content).Some?
        && var tree := env.unpack(env.outcomes.listing[k.value].content).value;
           && LocatePayloadRoot(tree).Some?
           && s.world.live == PublishPayload(w.live, VersionText(ReleaseVersion(RunRelease(w, env))),
                                              LocatePayloadRoot(tree).value.entries).0
  {
    var s := UpdateTsServer(w, env);
    if Copy in s.effects {
      if !Publishes(w, env) {
        NoPublishNoServiceEffects(w, env);
      }
      var d := DownloadTeamspeakVersion(w, env);
      var checksum := ReleaseChecksum(RunRelease(w, env));
      VerifiedArchive(env.outcomes.listing, checksum, env.hash);
      assert RecordedTree(d.world, env)
             == env.unpack(env.outcomes.listing[FindVerified(env.outcomes.listing, checksum, env.hash).value].content);
      InstallTrace(d.world, env);
    }
  }

  /** The service is stopped only by an update that publishes, and only
      when the start script exists. */
  lemma StopRequiresPublishing(w: World, env: Env)
    ensures Stop in UpdateTsServer(w, env).effects ==> Publishes(w, env) && StartScriptPresent(w.live)
  {
    if Publishes(w, env) {
      var b, start := PublishingTrace(w, env);
      PublishHeadEffects(w, env);
      StopOnlyInStopCommand(PublishHead(w, env), SendCommand(w.live, "stop"), b, start);
    } else {
      NoPublishNoServiceEffects(w, env);
    }
  }

  /** The trace of an update that stops the service, with the window of
      the stop, the copy and the start made explicit. */
  lemma StoppingTrace(w: World, env: Env) returns (b: seq<Effect>)
    requires Publishes(w, env) && StartScriptPresent(w.live)
    ensures UpdateTsServer(w, env).effects == PublishHead(w, env) + [Stop] + b + [Copy] + [Start] + [Cleanup]
    ensures Stop !in b && Copy !in b && Start !in b
  {
    var start;
    b, start := PublishingTrace(w, env);
  }

  /** The service is stopped only once the download has been verified, the
      archive extracted and the payload root located, and only if the start
      script exists; download, verification, extraction and location all
      come before the stop in the trace. */
  lemma StopOnlyAfterVerifiedPayload(w: World, env: Env)
    ensures var t := UpdateTsServer(w, env).effects;
      Stop in t ==>
        && DownloadSucceeds(RunRelease(w, env), env)
        && Installs(DownloadTeamspeakVersion(w, env).world, env)
        && StartScriptPresent(w.live)
        && var k := IndexOf(t, Stop);
           Download(FirstMirror(RunRelease(w, env))) in t[..k] && Verify in t[..k]
           && Extract in t[..k] && Locate in t[..k]
  {
    var t := UpdateTsServer(w, env).effects;
    StopRequiresPublishing(w, env);
    if Stop in t {
      var a := PublishHead(w, env);
      var b := StoppingTrace(w, env);
      PublishHeadEffects(w, env);
      WindowOrder(a, b, [Cleanup]);
    }
  }

  /** Once the service is stopped, the payload is copied and the service
      started again, each exactly once and in that order. */
  lemma StopIsFollowedByCopyThenStart(w: World, env: Env)
    ensures var t := UpdateTsServer(w, env).effects;
      Stop in t ==>
        && Copy in t && Start in t
        && Count(t, Stop) == 1 && Count(t, Copy) == 1 && Count(t, Start) == 1
        && IndexOf(t, Stop) < IndexOf(t, Copy) < IndexOf(t, Start)
  {
    var t := UpdateTsServer(w, env).effects;
    StopRequiresPublishing(w, env);
    if Stop in t {
      var b := StoppingTrace(w, env);
      PublishHeadEffects(w, env);
      WindowCounts(PublishHead(w, env), b, [Cleanup]);
      WindowOrder(PublishHead(w, env), b, [Cleanup]);
    }
  }

  /** A failed download (scratch not prepared, no mirror, failed transfer or
      no file with the expected digest) stops nothing, starts nothing,
      copies nothing, leaves the live directory as it was and does not clean
      up the scratch directory. */
  lemma FailedDownloadTouchesNothing(w: World, env: Env)
    requires !DownloadSucceeds(RunRelease(w, env), env)
    ensures var s := UpdateTsServer(w, env);
      && Stop !in s.effects && Start !in s.effects && Copy !in s.effects && Cleanup !in s.effects
      && s.world.live == w.live
  {
    DownloadPhaseOnly(DownloadTeamspeakVersion(w, env).effects);
  }

  /** The scratch directory is cleaned up exactly when the download phase
      succeeded, and then as the last effect, once. */
  lemma CleanupOnlyAfterDownload(w: World, env: Env)
    ensures var t := UpdateTsServer(w, env).effects;
      && (Cleanup in t <==> DownloadSucceeds(RunRelease(w, env), env))
      && (Cleanup in t ==> t[|t| - 1] == Cleanup && Count(t, Cleanup) == 1)
  {
    var d := DownloadTeamspeakVersion(w, env);
    var t := UpdateTsServer(w, env).effects;
    DownloadPhaseOnly(d.effects);
    if d.value {
      var i := InstallDownloadVersion(d.world, env);
      CleanupLast(d.effects, i.effects);
    }
  }

  /** A cleanup appended to a trace without one is its last effect and
      occurs once. */
  lemma CleanupLast(d: seq<Effect>, i: seq<Effect>)
    requires Cleanup !in d && Cleanup !in i
    ensures var t := d + i + [Cleanup];
      Cleanup in t && t[|t| - 1] == Cleanup && Count(t, Cleanup) == 1
  {
    CountAppend(d + i, [Cleanup], Cleanup);
    CountAbsent(d + i, Cleanup);
  }

  /** The download phase downloads nothing but the first mirror's location,
      and that only after the scratch directory was prepared and when the
      location is not empty. */
  lemma DownloadOnlyFromFirstMirror(w: World, env: Env)
    ensures forall e :: e in DownloadTeamspeakVersion(w, env).effects && e.Download? ==>
              && env.outcomes.prepared
              && e.url == FirstMirror(RunRelease(w, env))
              && !PhpEmpty(e.url)
  {
    if env.outcomes.prepared {
      var p := RemoteDownloadPath(w, env);
      assert p.effects == [] || p.effects == [FetchManifest];
    }
  }

  /** A release without a usable mirror location is never downloaded: the
      whole update holds no download and ends with the failed download
      phase. */
  lemma NoMirrorNoDownload(w: World, env: Env)
    requires PhpEmpty(FirstMirror(RunRelease(w, env)))
    ensures var s := UpdateTsServer(w, env);
      && (forall e :: e in s.effects ==> !e.Download?)
      && Stop !in s.effects && Copy !in s.effects && Start !in s.effects && Cleanup !in s.effects
  {
    DownloadOnlyFromFirstMirror(w, env);
    DownloadPhaseOnly(DownloadTeamspeakVersion(w, env).effects);
  }

  /** forceUpdate publishes exactly when the update gets that far, whatever
      the installed version: unlike main it never consults the marker
      file. */
  lemma ForceUpdateCopiesIffPublishes(w: World, env: Env)
    ensures Copy in ForceUpdate(w, env).effects <==> Publishes(w, env)
  {
    if Publishes(w, env) {
      var b, start := PublishingTrace(w, env);
    } else {
      NoPublishNoServiceEffects(w, env);
    }
  }

  /** An installation that can read the release from the run cache fetches
      nothing. */
  lemma InstallFetchesNothing(w: World, env: Env)
    requires w.cache.release.Some?
    ensures FetchManifest !in InstallDownloadVersion(w, env).effects
  {
    var v := RemoteVersion(w, env);
    assert v.effects == [];
    match w.cache.downloadFilePath
    case None =>
    case Some(path) =>
      match ArchiveContent(env.outcomes.listing, path)
      case None =>
      case Some(archive) =>
        var x := ExtractDownloadFile(env, archive);
        if x.0.Some? {
          var i := InstallPayload(v.world, v.effects, x.0.value, VersionText(v.value));
          assert InstallDownloadVersion(w, env) == i;
        }
  }

  /** At most one manifest fetch in a download-phase trace that fetches
      only as its second effect. */
  lemma DownloadFetchesAtMostOnce(w: World, env: Env)
    ensures Count(DownloadTeamspeakVersion(w, env).effects, FetchManifest) <= 1
  {
    var t := DownloadTeamspeakVersion(w, env).effects;
    if FetchManifest in t {
      assert t == t[..2] + t[2..];
      CountAppend(t[..2], t[2..], FetchManifest);
      CountAbsent(t[2..], FetchManifest);
      assert t[..2] == [Prepare, FetchManifest];
    } else {
      CountAbsent(t, FetchManifest);
    }
  }

  /** Within an update the manifest is fetched at most once, and not at all
      when the run already holds the release data. */
  lemma UpdateFetchesAtMostOnce(w: World, env: Env)
    ensures Count(UpdateTsServer(w, env).effects, FetchManifest) <= 1
    ensures w.cache.release.Some? ==> FetchManifest !in UpdateTsServer(w, env).effects
  {
    var d := DownloadTeamspeakVersion(w, env);
    DownloadFetchesAtMostOnce(w, env);
    if d.value {
      var i := InstallDownloadVersion(d.world, env);
      InstallFetchesNothing(d.world, env);
      FetchOnlyInHead(d.effects, i.effects);
    }
  }

  /** A trace whose installation and cleanup fetch nothing fetches as often
      as its download phase. */
  lemma FetchOnlyInHead(d: seq<Effect>, i: seq<Effect>)
    requires FetchManifest !in i
    ensures Count(d + i + [Cleanup], FetchManifest) == Count(d, FetchManifest)
    ensures FetchManifest in d + i + [Cleanup] <==> FetchManifest in d
  {
    var rest := i + [Cleanup];
    assert d + i + [Cleanup] == d + rest;
    CountAppend(d, rest, FetchManifest);
    CountAbsent(rest, FetchManifest);
  }

  /** main checks the version first and updates only when the installed
      version is outdated; it fetches the manifest exactly once. */
  lemma MainUpdatesOnlyWhenOutdated(env: Env, live: LiveDir)
    ensures var s := Main(env, live);
      var remote := ReleaseVersion(SelectRelease(env.platform, env.manifest));
      && (s.value <==> CompareVersions(LocalVersion(live), remote) == -1)
      && (Prepare in s.effects <==> s.value)
      && Count(s.effects, FetchManifest) == 1
  {
    var o := IsOutdated(FreshWorld(live), env);
    assert o.effects == [FetchManifest];
    if o.value {
      var u := UpdateTsServer(o.world, env);
      UpdateFetchesAtMostOnce(o.world, env);
      CountAppend(o.effects, u.effects, FetchManifest);
      CountAbsent(u.effects, FetchManifest);
      assert u.effects[0] == Prepare;
    }
  }

  /** An installed version equal to or above the remote one is never
      replaced: main neither prepares a download nor touches the service. */
  lemma NewerLocalNeverUpdates(env: Env, live: LiveDir)
    requires var remote := ReleaseVersion(SelectRelease(env.platform, env.manifest));
      LocalVersion(live) == remote || LexLess(remote, LocalVersion(live))
    ensures var s := Main(env, live);
      !s.value && Prepare !in s.effects && Stop !in s.effects && s.world.live == live
  {
    NewerLocalIsNotOutdated(LocalVersion(live),
      ReleaseVersion(SelectRelease(env.platform, env.manifest)));
  }

  /** Stamp-then-read: after an update that copied a payload, the live
      marker file reads back as the remote version. */
  lemma PublishedVersionReadsBack(w: World, env: Env)
    ensures var s := UpdateTsServer(w, env);
      Copy in s.effects ==> LocalVersion(s.world.live) == ReleaseVersion(RunRelease(w, env))
  {
    if Publishes(w, env) {
      PublishingStamps(w, env);
      StampedMarkerReadsBack(ReleaseVersion(RunRelease(w, env)));
    } else {
      NoPublishNoServiceEffects(w, env);
    }
  }

  /** Running main again against the same manifest after it published an
      update finds the installation up to date and does nothing more. */
  lemma SecondRunIsNoOp(env: Env, live: LiveDir)
    ensures var first := Main(env, live);
      Copy in first.effects ==>
        var second := Main(env, first.world.live);
        !second.value && Prepare !in second.effects && second.world.live == first.world.live
  {
    var first := Main(env, live);
    if Copy in first.effects {
      var o := IsOutdated(FreshWorld(live), env);
      assert o.value;
      PublishedVersionReadsBack(o.world, env);
      var remote := ReleaseVersion(SelectRelease(env.platform, env.manifest));
      assert LocalVersion(first.world.live) == remote;
      CompareVersionsLexicographic(remote, remote);
    }
  }

  /** The live directory changes only through the copy step. */
  lemma LiveChangesOnlyByCopy(env: Env, live: LiveDir)
    ensures var s := Main(env, live);
      s.world.live != live ==> Copy in s.effects
  {
    var o := IsOutdated(FreshWorld(live), env);
    if o.value {
      if Publishes(o.world, env) {
        var b, start := PublishingTrace(o.world, env);
      } else {
        NoPublishNoServiceEffects(o.world, env);
      }
    }
  }

  /** On a host outside the platform tables there is no release, hence no
      mirror: main never downloads, stops, copies or starts anything. */
  lemma UnknownHostNeverTouchesService(host: Host, manifest: Manifest, hash: string -> Digest,
                                       unpack: string -> Option<seq<Node>>, outcomes: Outcomes, live: LiveDir)
    requires host.kernelName !in Names(KernelTable) || host.machine !in Names(ArchitectureTable)
    ensures var s := Main(HostEnv(host, manifest, hash, unpack, outcomes), live);
      forall e :: e in s.effects ==> !e.Download? && e != Stop && e != Copy && e != Start
  {
    UnknownHostHasNoRelease(host, manifest);
    var env := HostEnv(host, manifest, hash, unpack, outcomes);
    var o := IsOutdated(FreshWorld(live), env);
    if o.value {
      assert RunRelease(o.world, env) == NoRelease;
      NoMirrorNoDownload(o.world, env);
    }
  }
}
