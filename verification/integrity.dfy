/** The integrity gate: the downloaded file is accepted only if its sha256
    digest equals the manifest's checksum. The hash itself is a parameter:
    any function whose every result is 64 lower-case hex digits, as
    hash_file('sha256', ...) returns. */
module Integrity {
  import opened Wrappers

  predicate IsLowerHexDigit(c: char) {
    '0' <= c <= '9' || 'a' <= c <= 'f'
  }

  /** The shape of a hex-encoded sha256 digest. */
  predicate IsSha256Hex(s: string) {
    |s| == 64 && forall i :: 0 <= i < |s| ==> IsLowerHexDigit(s[i])
  }

  type Digest = s: string | IsSha256Hex(s)
    witness seq(64, i => '0')

  /** One entry of the scratch directory listing, in listing order. */
  datatype ScratchEntry = ScratchEntry(path: string, isFile: bool, content: string)

  /** The entry is a regular file whose digest is the expected checksum. */
  predicate Accepts(e: ScratchEntry, checksum: string, hash: string -> Digest) {
    e.isFile && hash(e.content) == checksum
  }

  /** The index of the first accepted entry, if any. */
  function FindVerified(listing: seq<ScratchEntry>, checksum: string, hash: string -> Digest): (r: Option<nat>)
    ensures r.Some? ==> r.value < |listing| && Accepts(listing[r.value], checksum, hash)
    ensures r.Some? ==> forall j :: 0 <= j < r.value ==> !Accepts(listing[j], checksum, hash)
    ensures r.None? ==> forall j :: 0 <= j < |listing| ==> !Accepts(listing[j], checksum, hash)
  {
    if |listing| == 0 then None
    else if Accepts(listing[0], checksum, hash) then Some(0)
    else match FindVerified(listing[1..], checksum, hash)
      case Some(k) => Some(k + 1)
      case None => None
  }

  /** validateRemoteDownload: the path of the first regular file in the
      scratch listing whose digest equals the checksum (the file recorded as
      downloadFilePath), or None when no file matches. A checksum that is not
      64 lower-case hex digits, the empty default in particular, never
      matches. */
  function VerifiedDownload(listing: seq<ScratchEntry>, checksum: string, hash: string -> Digest): (r: Option<string>)
    ensures r.Some? <==> exists i :: 0 <= i < |listing| && Accepts(listing[i], checksum, hash)
    ensures forall i :: (0 <= i < |listing| && Accepts(listing[i], checksum, hash)
                         && (forall j :: 0 <= j < i ==> !Accepts(listing[j], checksum, hash)))
                        ==> r == Some(listing[i].path)
    ensures !IsSha256Hex(checksum) ==> r == None
  {
    match FindVerified(listing, checksum, hash)
    case Some(k) => Some(listing[k].path)
    case None => None
  }

  /** A directory listing names each path once. */
  predicate DistinctPaths(listing: seq<ScratchEntry>) {
    forall i, j :: 0 <= i < j < |listing| ==> listing[i].path != listing[j].path
  }

  /** What reading the regular file at `path` gives: the content of the
      first regular file the listing holds under that path, None when it
      holds none (file_exists fails). */
  function ArchiveContent(listing: seq<ScratchEntry>, path: string): (r: Option<string>)
    ensures r.Some? <==> exists i :: 0 <= i < |listing| && listing[i].isFile && listing[i].path == path
  {
    if |listing| == 0 then None
    else if listing[0].isFile && listing[0].path == path then Some(listing[0].content)
    else
      assert forall i :: 0 <= i < |listing[1..]| ==> listing[1..][i] == listing[i + 1];
      ArchiveContent(listing[1..], path)
  }

  /** In a listing that names each path once, the file at a listed path is
      that entry's content. */
  lemma {:induction false} ArchiveContentAt(listing: seq<ScratchEntry>, k: nat)
    requires DistinctPaths(listing)
    requires k < |listing| && listing[k].isFile
    ensures ArchiveContent(listing, listing[k].path) == Some(listing[k].content)
  {
    if k > 0 {
      assert listing[0].path != listing[k].path;
      assert listing[1..][k - 1] == listing[k];
      ArchiveContentAt(listing[1..], k - 1);
    }
  }

  /** The integrity gate does what it is for: reading back the file recorded
      as downloadFilePath gives the first accepted entry's content, whose
      digest is the expected checksum. */
  lemma VerifiedArchive(listing: seq<ScratchEntry>, checksum: string, hash: string -> Digest)
    requires DistinctPaths(listing)
    ensures var k := FindVerified(listing, checksum, hash);
      k.Some? ==>
        && VerifiedDownload(listing, checksum, hash) == Some(listing[k.value].path)
        && ArchiveContent(listing, listing[k.value].path) == Some(listing[k.value].content)
        && hash(listing[k.value].content) == checksum
  {
    var k := FindVerified(listing, checksum, hash);
    if k.Some? {
      ArchiveContentAt(listing, k.value);
    }
  }
}
