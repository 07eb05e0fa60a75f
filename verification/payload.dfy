/** The payload-root locator: a depth-first walk of the extracted archive
    that stops at the first regular file named like the server binary or its
    licence and answers that file's directory. */
module Payload {
  import opened Wrappers

  /** An entry of the extracted tree; a directory lists its children in the
      order the directory iterator yields them. */
  datatype Node = File(name: string, content: string) | Dir(name: string, children: seq<Node>)

  /** A directory below the extraction root, as the names leading to it. */
  type Path = seq<string>

  /** The file names that mark the real package root. */
  predicate IsMarker(name: string) {
    name == "ts3server" || name == "ts3server.exe" || name == "LICENSE"
  }

  /** A regular file met by the walk: its directory, its name, and the full
      listing of that directory. */
  datatype Leaf = Leaf(dir: Path, name: string, siblings: seq<Node>)

  /** The payload root found: its path and its listing. */
  datatype Found = Found(dir: Path, entries: seq<Node>)

  /** Every regular file of the tree in the order RecursiveIteratorIterator
      visits them: `rest` is what is left of the listing `siblings` of `dir`. */
  function Walk(dir: Path, siblings: seq<Node>, rest: seq<Node>): seq<Leaf>
    decreases rest
  {
    if |rest| == 0 then []
    else match rest[0]
      case File(name, _) => [Leaf(dir, name, siblings)] + Walk(dir, siblings, rest[1..])
      case Dir(name, kids) => Walk(dir + [name], kids, kids) + Walk(dir, siblings, rest[1..])
  }

  /** The index of the first marker file among the leaves, if any. */
  function FirstMarker(leaves: seq<Leaf>): (r: Option<nat>)
    ensures r.Some? ==> r.value < |leaves| && IsMarker(leaves[r.value].name)
    ensures r.Some? ==> forall j :: 0 <= j < r.value ==> !IsMarker(leaves[j].name)
    ensures r.None? ==> forall j :: 0 <= j < |leaves| ==> !IsMarker(leaves[j].name)
  {
    if |leaves| == 0 then None
    else if IsMarker(leaves[0].name) then Some(0)
    else match FirstMarker(leaves[1..])
      case Some(k) => Some(k + 1)
      case None => None
  }

  /** The listing `entries` holds a marker file. */
  ghost predicate HoldsMarker(entries: seq<Node>) {
    exists k :: 0 <= k < |entries| && entries[k].File? && IsMarker(entries[k].name)
  }

  /** The search itself, returning as soon as a marker file is met; what it
      answers is a directory that holds a marker file. */
  function LocateIn(dir: Path, siblings: seq<Node>, rest: seq<Node>): (r: Option<Found>)
    requires |rest| <= |siblings| && rest == siblings[|siblings| - |rest|..]
    ensures r.Some? ==> HoldsMarker(r.value.entries)
    decreases rest
  {
    if |rest| == 0 then None
    else match rest[0]
      case File(name, _) =>
        if IsMarker(name) then
          assert siblings[|siblings| - |rest|] == rest[0];
          Some(Found(dir, siblings))
        else LocateIn(dir, siblings, rest[1..])
      case Dir(name, kids) =>
        var below := LocateIn(dir + [name], kids, kids);
        if below.Some? then below else LocateIn(dir, siblings, rest[1..])
  }

  /** getRealServerDirectory: the payload root inside the extraction
      directory whose listing is `root`; None stands for the `''` the
      source returns when no marker file exists. */
  function LocatePayloadRoot(root: seq<Node>): (r: Option<Found>)
    ensures r.Some? ==> HoldsMarker(r.value.entries)
  {
    LocateIn([], root, root)
  }

  /** What the leaves of a walk say about where the search stops. */
  function FoundAt(leaves: seq<Leaf>): Option<Found>
  {
    match FirstMarker(leaves)
    case Some(k) => Some(Found(leaves[k].dir, leaves[k].siblings))
    case None => None
  }

  /** The first marker of a concatenation is in the first part when the
      first part has one. */
  lemma FoundAtAppend(a: seq<Leaf>, b: seq<Leaf>)
    ensures FoundAt(a + b) == if FoundAt(a).Some? then FoundAt(a) else FoundAt(b)
  {
    var r := FirstMarker(a + b);
    var ra := FirstMarker(a);
    var rb := FirstMarker(b);
    if ra.Some? {
      assert (a + b)[ra.value] == a[ra.value];
      assert r == ra;
    } else if rb.Some? {
      assert (a + b)[|a| + rb.value] == b[rb.value];
      assert r == Some(|a| + rb.value);
    } else {
      assert forall j :: 0 <= j < |a + b| ==> !IsMarker((a + b)[j].name);
    }
  }

  /** The early-return search stops at the first marker of the walk. */
  lemma {:induction false} LocateInIsFirstOfWalk(dir: Path, siblings: seq<Node>, rest: seq<Node>)
    requires |rest| <= |siblings| && rest == siblings[|siblings| - |rest|..]
    ensures LocateIn(dir, siblings, rest) == FoundAt(Walk(dir, siblings, rest))
    decreases rest
  {
    if |rest| > 0 {
      match rest[0]
      case File(name, _) =>
        LocateInIsFirstOfWalk(dir, siblings, rest[1..]);
        FoundAtAppend([Leaf(dir, name, siblings)], Walk(dir, siblings, rest[1..]));
      case Dir(name, kids) =>
        LocateInIsFirstOfWalk(dir + [name], kids, kids);
        LocateInIsFirstOfWalk(dir, siblings, rest[1..]);
        FoundAtAppend(Walk(dir + [name], kids, kids), Walk(dir, siblings, rest[1..]));
    }
  }

  /** The located root is the directory of the first marker file in walk
      order, and there is none exactly when no file of the tree is a marker. */
  lemma LocatePayloadRootSpec(root: seq<Node>)
    ensures var leaves := Walk([], root, root);
      && (LocatePayloadRoot(root).None? <==> forall j :: 0 <= j < |leaves| ==> !IsMarker(leaves[j].name))
      && forall i :: (0 <= i < |leaves| && IsMarker(leaves[i].name)
                      && (forall j :: 0 <= j < i ==> !IsMarker(leaves[j].name)))
                     ==> LocatePayloadRoot(root) == Some(Found(leaves[i].dir, leaves[i].siblings))
  {
    LocateInIsFirstOfWalk([], root, root);
  }
}
