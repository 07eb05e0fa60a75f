/** Platform resolution: the host's kernel name and machine architecture
    (php_uname 's' and 'm') mapped through two fixed tables onto the keys of
    the release manifest. */
module Platform {

  /** What php_uname reports about the host. */
  datatype Host = Host(kernelName: string, machine: string)

  /** The manifest keys of a host: `""` where the host is not in a table. */
  datatype PlatformKey = PlatformKey(system: string, arch: string)

  /** A fixed name-to-key table, in the order the source writes it. */
  type Table = seq<(string, string)>

  const KernelTable: Table :=
    [("Darwin", "macos"), ("Windows", "windows"), ("FreeBSD", "freebsd"), ("Linux", "linux")]

  const ArchitectureTable: Table :=
    [("x86", "x86"), ("x86_64", "x86_64"), ("x64-based PC", "x86_64"), ("x86-based PC", "x86")]

  /** The names a table maps. */
  function Names(table: Table): set<string> {
    if |table| == 0 then {} else {table[0].0} + Names(table[1..])
  }

  /** `$table[$name] ?? ''`. */
  function Lookup(table: Table, name: string): string {
    if |table| == 0 then ""
    else if table[0].0 == name then table[0].1
    else Lookup(table[1..], name)
  }

  /** A looked-up name yields the key of its first entry; a name the table
      does not map yields `""`. */
  lemma {:induction false} LookupSpec(table: Table, name: string)
    ensures name !in Names(table) ==> Lookup(table, name) == ""
    ensures name in Names(table) ==>
              exists i :: 0 <= i < |table| && table[i].0 == name && Lookup(table, name) == table[i].1
  {
    if |table| > 0 && table[0].0 != name {
      LookupSpec(table[1..], name);
      if name in Names(table) {
        var i :| 0 <= i < |table[1..]| && table[1..][i].0 == name && Lookup(table[1..], name) == table[1..][i].1;
        assert table[i + 1].0 == name;
      }
    }
  }

  /** getSystemArchitecture: the manifest keys of the host. */
  function SystemArchitecture(host: Host): PlatformKey {
    PlatformKey(Lookup(KernelTable, host.kernelName), Lookup(ArchitectureTable, host.machine))
  }

  /** The names the two tables map. */
  lemma TableNames()
    ensures Names(KernelTable) == {"Darwin", "Windows", "FreeBSD", "Linux"}
    ensures Names(ArchitectureTable) == {"x86", "x86_64", "x64-based PC", "x86-based PC"}
  {
    assert KernelTable[1..][1..][1..][1..] == [];
    assert ArchitectureTable[1..][1..][1..][1..] == [];
  }

  /** Each key is one of the table's keys, and it is `""` exactly when the
      host's name is not in the table; there is no fallback platform. The
      two Windows architecture spellings map onto the plain ones. */
  lemma SystemArchitectureSpec(host: Host)
    ensures var key := SystemArchitecture(host);
      && key.system in {"macos", "windows", "freebsd", "linux", ""}
      && key.arch in {"x86", "x86_64", ""}
      && (key.system == "" <==> host.kernelName !in {"Darwin", "Windows", "FreeBSD", "Linux"})
      && (key.arch == "" <==> host.machine !in {"x86", "x86_64", "x64-based PC", "x86-based PC"})
      && (host.machine == "x64-based PC" ==> key.arch == "x86_64")
      && (host.machine == "x86-based PC" ==> key.arch == "x86")
  {
    TableNames();
    LookupSpec(KernelTable, host.kernelName);
    LookupSpec(ArchitectureTable, host.machine);
  }
}
