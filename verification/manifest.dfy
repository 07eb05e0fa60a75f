/** The decoded release manifest and the accessors the updater reads from
    it. A failed fetch or an undecodable body is the empty manifest. */
module Manifest {
  import opened Wrappers
  import opened PhpStrings
  import opened Platform
  import opened Versions

  /** One entry of the `mirrors` object, in the object's order. */
  datatype Mirror = Mirror(name: string, location: string)

  /** `manifest[system][arch]`: each field absent when the manifest lacks it. */
  datatype Release = Release(version: Option<string>, checksum: Option<string>, mirrors: seq<Mirror>)

  type Manifest = map<string, map<string, Release>>

  /** The empty array the updater uses when there is no release for the host. */
  const NoRelease := Release(None, None, [])

  /** getRemoteReleaseData (without its cache): `manifest[system][arch]` when
      both keys are non-empty and present, the empty release otherwise. */
  function SelectRelease(key: PlatformKey, manifest: Manifest): (r: Release)
    ensures PhpEmpty(key.system) || PhpEmpty(key.arch) ==> r == NoRelease
    ensures key.system !in manifest || key.arch !in manifest[key.system] ==> r == NoRelease
    ensures !PhpEmpty(key.system) && !PhpEmpty(key.arch)
            && key.system in manifest && key.arch in manifest[key.system]
            ==> r == manifest[key.system][key.arch]
  {
    if !PhpEmpty(key.system) && !PhpEmpty(key.arch)
       && key.system in manifest && key.arch in manifest[key.system]
    then manifest[key.system][key.arch]
    else NoRelease
  }

  /** getRemoteVersion: the release's version text, `0.0.0` when absent, parsed. */
  function ReleaseVersion(r: Release): (v: seq<int>)
    ensures |v| == 3
    ensures r.version.None? ==> v == [0, 0, 0]
  {
    match r.version
    case Some(text) => ParseVersion(text)
    case None => [0, 0, 0]  // the parse of the default text, by ParseVersionDefault
  }

  /** getRemoteChecksum: the release's checksum, `""` when absent. */
  function ReleaseChecksum(r: Release): string {
    r.checksum.GetOr("")
  }

  /** getRemoteDownloadPath: the location of the first mirror in the
      manifest's order, `""` when there is none. */
  function FirstMirror(r: Release): (location: string)
    ensures r.mirrors == [] ==> location == ""
    ensures r.mirrors != [] ==> location == r.mirrors[0].location
  {
    if r.mirrors == [] then "" else r.mirrors[0].location
  }

  /** A host outside the platform tables never sees a release: the version
      defaults to 0.0.0, the checksum and the download location to `""`. */
  lemma UnknownHostHasNoRelease(host: Host, manifest: Manifest)
    requires host.kernelName !in Names(KernelTable) || host.machine !in Names(ArchitectureTable)
    ensures SelectRelease(SystemArchitecture(host), manifest) == NoRelease
    ensures ReleaseVersion(SelectRelease(SystemArchitecture(host), manifest)) == [0, 0, 0]
    ensures ReleaseChecksum(SelectRelease(SystemArchitecture(host), manifest)) == ""
    ensures FirstMirror(SelectRelease(SystemArchitecture(host), manifest)) == ""
  {
    LookupSpec(KernelTable, host.kernelName);
    LookupSpec(ArchitectureTable, host.machine);
  }
}
