/** The output file system as a map from paths to nodes, and the few
    java.io.File operations the downloader performs on it. */
module Disks {
  import opened Wrappers
  import opened Failures

  datatype Node = Dir | File(content: string)

  type Disk = map<string, Node>

  /** The disk after an operation, which keeps its effects even when it
      ends in a failure (nothing is rolled back). */
  datatype Effect<T> = Effect(disk: Disk, result: Result<T, Failure>)

  /** `new File(parent, child).getPath()`: an empty child names the parent
      itself; otherwise the two are joined by one `/`. */
  function JoinPath(parent: string, child: string): string {
    if |child| == 0 then parent
    else if child[0] == '/' then (if parent == "/" then child else parent + child)
    else if parent == "/" then parent + child
    else parent + "/" + child
  }

  /** `if (!dir.exists()) dir.mkdir();` */
  function Mkdir(disk: Disk, path: string): (r: Disk)
    ensures path in r && r.Keys == disk.Keys + {path}
    ensures forall p | p in disk :: r[p] == disk[p]
    ensures path !in disk ==> r[path] == Dir
  {
    if path in disk then disk else disk[path := Dir]
  }

  /** Every file and directory of `before` is still there, unchanged. */
  ghost predicate Keeps(before: Disk, after: Disk) {
    forall p | p in before :: p in after && after[p] == before[p]
  }

  lemma KeepsTrans(a: Disk, b: Disk, c: Disk)
    requires Keeps(a, b) && Keeps(b, c)
    ensures Keeps(a, c)
  {
  }
}
