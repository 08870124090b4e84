/** `copyOverrides`: every path under the pack's overrides folder is
    copied to the path obtained by replacing the folder's path text with
    the output directory's, and a copy whose target exists is dropped. */
module Overrides {
  import opened Wrappers
  import opened Strings
  import opened Failures
  import opened Disks

  /** One path of the extracted archive as `Files.walk` reports it. */
  datatype Entry = Entry(path: string, node: Node)

  /** `path` is `root` itself or lies below it. */
  predicate Under(path: string, root: string) {
    path == root || StartsWith(path, root + "/")
  }

  /** The entries below `root`, in walk order. */
  function Below(tree: seq<Entry>, root: string): (r: seq<Entry>)
    ensures forall e :: e in r <==> e in tree && Under(e.path, root)
  {
    if |tree| == 0 then []
    else if Under(tree[0].path, root) then [tree[0]] + Below(tree[1..], root)
    else Below(tree[1..], root)
  }

  /** `Files.walk(root)` over a tree listed in walk order (a directory
      before what it holds); a root that does not exist fails. */
  function Walk(tree: seq<Entry>, root: string): (r: Result<seq<Entry>, Failure>)
    ensures r.Success? <==> exists i | 0 <= i < |tree| :: tree[i].path == root
    ensures r.Failure? ==> r.error == OverridesMissing(root)
    ensures r.Success? ==> forall e :: e in r.value <==> e in tree && Under(e.path, root)
  {
    if exists i | 0 <= i < |tree| :: tree[i].path == root then Success(Below(tree, root))
    else Failure(OverridesMissing(root))
  }

  /** The destination of `path`: every occurrence of the root's path text
      replaced, literally, by the output directory's. */
  function Target(root: string, out: string, path: string): string {
    ReplaceAll(path, root, out)
  }

  /** Under a non-empty root whose text does not recur below it, the
      destination is the output directory followed by the same relative
      part. */
  lemma TargetRelocates(root: string, out: string, rest: string)
    requires |root| > 0 && !Contains(rest, root)
    ensures Target(root, out, root + rest) == out + rest
  {
    ReplaceAllLeading(root, rest, out);
    ReplaceAllAbsent(rest, root, out);
  }

  /** The literal replacement reaches past the prefix: a root text that
      recurs below the root is replaced there too. */
  lemma TargetReplacesEveryOccurrence()
    ensures Target("/t/o", "/m", "/t/o/t/o") == "/m/m"
  {
    ReplaceAllLeading("/t/o", "/t/o", "/m");
    ReplaceAllLeading("/t/o", "", "/m");
    assert "/t/o" + "/t/o" == "/t/o/t/o";
    assert "/t/o" + "" == "/t/o";
  }

  /** `Files.copy` of one entry: a directory is copied as an empty
      directory, a file with its content; an existing target makes the
      copy throw, which is swallowed. */
  function CopyOne(root: string, out: string, disk: Disk, e: Entry): Disk {
    var target := Target(root, out, e.path);
    if target in disk then disk else disk[target := e.node]
  }

  function Targets(root: string, out: string, entries: seq<Entry>): set<string> {
    set e | e in entries :: Target(root, out, e.path)
  }

  /** The `forEach` over the walk, in order. */
  function Merge(root: string, out: string, disk: Disk, entries: seq<Entry>): (r: Disk)
    ensures Keeps(disk, r)
    ensures r.Keys == disk.Keys + Targets(root, out, entries)
    decreases |entries|
  {
    if |entries| == 0 then disk
    else
      var r := Merge(root, out, CopyOne(root, out, disk, entries[0]), entries[1..]);
      assert Targets(root, out, entries)
          == {Target(root, out, entries[0].path)} + Targets(root, out, entries[1..]) by {
        assert forall e :: e in entries <==> e == entries[0] || e in entries[1..];
      }
      r
  }

  /** `copyOverrides`: only a missing overrides folder escapes as an error;
      every per-entry failure is swallowed. */
  function CopyOverrides(tree: seq<Entry>, root: string, out: string, disk: Disk): (r: Effect<()>)
    ensures Keeps(disk, r.disk)
    ensures r.result.Failure? <==> forall i | 0 <= i < |tree| :: tree[i].path != root
    ensures r.result.Failure? ==> r.disk == disk
  {
    match Walk(tree, root)
    case Failure(e) => Effect(disk, Failure(e))
    case Success(entries) => Effect(Merge(root, out, disk, entries), Success(()))
  }

  /** A target absent at the start receives the node of the first entry
      that maps to it; later entries with the same target are dropped. */
  lemma {:induction false} MergeFirstWins(root: string, out: string, disk: Disk, entries: seq<Entry>, i: int)
    requires 0 <= i < |entries|
    requires Target(root, out, entries[i].path) !in disk
    requires forall j | 0 <= j < i :: Target(root, out, entries[j].path) != Target(root, out, entries[i].path)
    ensures Merge(root, out, disk, entries)[Target(root, out, entries[i].path)] == entries[i].node
    decreases |entries|
  {
    var next := CopyOne(root, out, disk, entries[0]);
    if i == 0 {
      assert Target(root, out, entries[0].path) in next;
    } else {
      forall j | 0 <= j < i - 1
        ensures Target(root, out, entries[1..][j].path) != Target(root, out, entries[1..][i - 1].path)
      {
        assert entries[1..][j] == entries[j + 1];
      }
      assert entries[1..][i - 1] == entries[i];
      MergeFirstWins(root, out, next, entries[1..], i - 1);
    }
  }

  /** When every target already exists the merge changes nothing. */
  lemma {:induction false} MergeSettled(root: string, out: string, disk: Disk, entries: seq<Entry>)
    requires forall e | e in entries :: Target(root, out, e.path) in disk
    ensures Merge(root, out, disk, entries) == disk
    decreases |entries|
  {
    if |entries| > 0 {
      assert entries[0] in entries;
      assert CopyOne(root, out, disk, entries[0]) == disk;
      forall e | e in entries[1..] ensures Target(root, out, e.path) in disk {
        assert e in entries;
      }
      MergeSettled(root, out, disk, entries[1..]);
    }
  }

  /** Merging the same overrides twice gives what merging once gives. */
  lemma MergeIdempotent(root: string, out: string, disk: Disk, entries: seq<Entry>)
    ensures Merge(root, out, Merge(root, out, disk, entries), entries) == Merge(root, out, disk, entries)
  {
    var once := Merge(root, out, disk, entries);
    forall e | e in entries ensures Target(root, out, e.path) in once {
      assert Target(root, out, e.path) in Targets(root, out, entries);
    }
    MergeSettled(root, out, once, entries);
  }

  /** Copying the overrides twice leaves the output as copying once does. */
  lemma CopyOverridesIdempotent(tree: seq<Entry>, root: string, out: string, disk: Disk)
    ensures var once := CopyOverrides(tree, root, out, disk).disk;
      CopyOverrides(tree, root, out, once).disk == once
  {
    var w := Walk(tree, root);
    if w.Success? {
      MergeIdempotent(root, out, disk, w.value);
    }
  }
}
