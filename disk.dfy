/**
 * The file system as the installers see it: a set of existing relative paths, zip
 * archives given by their entry names, and the paths `ZipFile.extractall` creates.
 */
module Disk {
  import opened Text

  /** The relative paths that exist (files and directories alike). */
  type Paths = set<string>

  /** The entry names of each zip archive that can be opened; a path not here is not a readable zip. */
  type Archives = map<string, seq<string>>

  /** The executable both installers look for after extraction. */
  const SERVER := "bedrock_server"

  /** `Path(dir) / name`. */
  function Join(dir: string, name: string): (p: string)
    ensures StartsWith(p, dir + "/")
  {
    dir + "/" + name
  }

  /** Joining under one directory tells different names apart. */
  lemma JoinInjective(dir: string, a: string, b: string)
    requires Join(dir, a) == Join(dir, b)
    ensures a == b
  {
    assert a == Join(dir, a)[|dir| + 1..];
    assert b == Join(dir, b)[|dir| + 1..];
  }

  /** The names in `names`, each placed under `dir`. */
  function Under(dir: string, names: set<string>): Paths {
    set n | n in names :: Join(dir, n)
  }

  lemma UnderIff(dir: string, names: set<string>, n: string)
    ensures Join(dir, n) in Under(dir, names) <==> n in names
  {
    if Join(dir, n) in Under(dir, names) {
      var m :| m in names && Join(dir, m) == Join(dir, n);
      JoinInjective(dir, m, n);
    }
  }

  /**
   * The relative paths extraction creates for the entry named `e`: every directory on
   * the way to it and, unless the entry is itself a directory (`/` at the end), the entry.
   */
  function EntryPaths(e: string): set<string> {
    (set i | 0 < i < |e| && e[i] == '/' :: e[..i]) + (if e != [] && e[|e| - 1] != '/' then {e} else {})
  }

  /** The relative paths `extractall` creates for an archive with entries `entries`. */
  function Extracted(entries: seq<string>): set<string> {
    set i, p | 0 <= i < |entries| && p in EntryPaths(entries[i]) :: p
  }

  /** An entry yields `bedrock_server` exactly when it is that file or lies inside that directory. */
  lemma EntryPathsServer(e: string)
    ensures SERVER in EntryPaths(e) <==> e == SERVER || StartsWith(e, SERVER + "/")
  {
    var n := |SERVER|;
    if StartsWith(e, SERVER + "/") {
      assert e[n] == '/' && e[..n] == (SERVER + "/")[..n] == SERVER;
    }
    if SERVER in EntryPaths(e) && e != SERVER {
      var i :| 0 < i < |e| && e[i] == '/' && e[..i] == SERVER;
      assert e[..n + 1] == e[..n] + [e[n]];
    }
  }

  /** After extraction `bedrock_server` exists exactly when some entry is it or lies inside it. */
  lemma ExtractedServer(entries: seq<string>)
    ensures SERVER in Extracted(entries) <==>
      exists i :: 0 <= i < |entries| && (entries[i] == SERVER || StartsWith(entries[i], SERVER + "/"))
  {
    if SERVER in Extracted(entries) {
      var i :| 0 <= i < |entries| && SERVER in EntryPaths(entries[i]);
      EntryPathsServer(entries[i]);
    }
    forall i | 0 <= i < |entries| && (entries[i] == SERVER || StartsWith(entries[i], SERVER + "/"))
      ensures SERVER in Extracted(entries)
    {
      EntryPathsServer(entries[i]);
    }
  }
}
