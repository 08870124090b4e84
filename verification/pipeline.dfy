/** `downloadModPackFromURL` and the name shaping around it: resolve the
    pack's latest file, read its manifest from the extracted archive,
    download the mods, copy the overrides and optionally write the MultiMC
    configuration. */
module Pipeline {
  import opened Wrappers
  import opened Strings
  import opened Failures
  import opened Manifests
  import opened Redirects
  import opened Patterns
  import opened Disks
  import opened Downloads
  import opened Overrides
  import opened Launcher

  // ---------------------------------------------------------------------
  // Names

  /** The listing URL of the pack's latest file: a trailing `/` is removed
      with `replaceAll(".$", "")`, then `/files/latest` is appended. */
  function ListingUrl(url: string): string {
    (if EndsWith(url, "/") then RemoveDotDollar(url) else url) + "/files/latest"
  }

  /** Exactly one trailing character goes when the URL ends in `/` (so
      `x//` keeps one `/`); any other URL is kept whole. */
  lemma ListingUrlSpec(url: string)
    ensures EndsWith(url, "/") ==> ListingUrl(url) == url[..|url| - 1] + "/files/latest"
    ensures !EndsWith(url, "/") ==> ListingUrl(url) == url + "/files/latest"
  {
    if EndsWith(url, "/") {
      assert url[|url| - 1] == url[|url| - 1..][0] == '/';
      RemoveDotDollarDropsLast(url);
    }
  }

  /** The name of the downloaded pack archive. */
  function ZipName(filename: string): (r: string)
    ensures EndsWith(r, ".zip")
    ensures EndsWith(filename, ".zip") ==> r == filename
    ensures !EndsWith(filename, ".zip") ==> r == filename + ".zip"
  {
    if EndsWith(filename, ".zip") then filename
    else
      assert (filename + ".zip")[|filename|..] == ".zip";
      filename + ".zip"
  }

  /** Suffixing `.zip` is idempotent. */
  lemma ZipNameIdempotent(filename: string)
    ensures ZipName(ZipName(filename)) == ZipName(filename)
  {
  }

  /** `getOutputDir`'s name: the decoded pack name with every match of the
      regex `.zip` (any character, then `zip`) deleted. */
  function OutputName(decode: string -> string, packName: string): string {
    RemoveDotZip(decode(packName))
  }

  /** A decoded name `x.zip` whose stem holds no `zip` loses exactly its
      extension. */
  lemma OutputNameOfArchive(decode: string -> string, packName: string, x: string)
    requires decode(packName) == x + ".zip" && !Contains(x, "zip")
    ensures OutputName(decode, packName) == x
  {
    RemoveDotZipExtension(x);
  }

  /** `new File(getTempDir("blaspheme_temp"), packName)`. */
  function TempDir(home: string, packName: string): string {
    JoinPath(JoinPath(home, "/.blaspheme_temp"), packName)
  }

  // ---------------------------------------------------------------------
  // The run

  /** What downloading and unzipping the pack file yields: its entries,
      with paths relative to the extraction directory and in walk order,
      and what Gson makes of `manifest.json`. */
  datatype Archive = Archive(entries: seq<Entry>, manifest: Manifest)

  /** The world outside the output directory: the network, URL decoding,
      the redirect fuel, the user's home, the directory of the running jar,
      and the archive behind each pack URL (absent when the download or the
      unzip fails). */
  datatype Env = Env(
    web: Web,
    decode: string -> string,
    fuel: nat,
    home: string,
    jarDir: string,
    archives: map<string, Archive>)

  /** `readManifest`'s existence check. */
  predicate HasManifest(a: Archive) {
    exists i | 0 <= i < |a.entries| :: a.entries[i].path == "manifest.json"
  }

  /** The archive's entries at their place under the temporary directory. */
  function Extracted(tempDir: string, entries: seq<Entry>): (r: seq<Entry>)
    ensures |r| == |entries|
    ensures forall i | 0 <= i < |r| ::
      r[i] == Entry(JoinPath(tempDir, entries[i].path), entries[i].node)
  {
    if |entries| == 0 then []
    else [Entry(JoinPath(tempDir, entries[0].path), entries[0].node)] + Extracted(tempDir, entries[1..])
  }

  /** The temporary directory as `Files.walk` lists it: the directory
      itself, which `getModpackData` creates before extracting into it,
      then the extracted entries. */
  function PackTree(tempDir: string, entries: seq<Entry>): (r: seq<Entry>)
    ensures |r| == |entries| + 1 && r[0] == Entry(tempDir, Dir)
    ensures forall i | 0 <= i < |entries| :: r[i + 1] == Entry(JoinPath(tempDir, entries[i].path), entries[i].node)
  {
    [Entry(tempDir, Dir)] + Extracted(tempDir, entries)
  }

  /** Where a matched pack is installed. */
  datatype Layout = Layout(outDir: string, minecraft: string, mods: string, tempDir: string)

  function LayoutOf(env: Env, packName: string): (l: Layout)
    ensures l.minecraft == JoinPath(l.outDir, "minecraft")
    ensures l.mods == JoinPath(l.minecraft, "mods")
  {
    var outDir := JoinPath(env.jarDir, OutputName(env.decode, packName));
    var minecraft := JoinPath(outDir, "minecraft");
    Layout(outDir, minecraft, JoinPath(minecraft, "mods"), TempDir(env.home, packName))
  }

  /** Everything after the manifest is read: output directories, mods,
      overrides, and the optional configuration. */
  function Install(resolve: Resolver, body: map<string, string>, l: Layout, m: Manifest, tree: seq<Entry>, disk: Disk, setupMultiMC: bool): (r: Effect<()>)
    ensures disk.Keys <= r.disk.Keys
    ensures forall p | p in disk && p != CfgPath(l.outDir) :: r.disk[p] == disk[p]
    ensures !setupMultiMC ==> Keeps(disk, r.disk)
  {
    var d := Mkdir(Mkdir(disk, l.outDir), l.minecraft);
    var mods := DownloadModpackFromManifest(resolve, body, l.minecraft, d, m);
    KeepsTrans(disk, d, mods.disk);
    if mods.result.Failure? then Effect(mods.disk, Failure(mods.result.error))
    else
      var r := Finish(l, m, tree, mods.disk, setupMultiMC);
      assert !setupMultiMC ==> Keeps(disk, r.disk) by {
        if !setupMultiMC {
          KeepsTrans(disk, mods.disk, r.disk);
        }
      }
      r
  }

  /** What follows the mods: the overrides, then the configuration when
      asked for. */
  function Finish(l: Layout, m: Manifest, tree: seq<Entry>, disk: Disk, setupMultiMC: bool): (r: Effect<()>)
    ensures disk.Keys <= r.disk.Keys
    ensures forall p | p in disk && p != CfgPath(l.outDir) :: r.disk[p] == disk[p]
    ensures !setupMultiMC ==> Keeps(disk, r.disk)
  {
    var copied := CopyOverrides(tree, JoinPath(l.tempDir, m.overrides), l.minecraft, disk);
    if copied.result.Failure? || !setupMultiMC then copied
    else SetupMultimc(m, l.outDir, copied.disk)
  }

  /** `getModpackData`, `readManifest` and the rest, once the pack name is
      known. */
  function RunPack(env: Env, disk: Disk, finalUrl: string, packName: string, setupMultiMC: bool): (r: Effect<()>)
    ensures disk.Keys <= r.disk.Keys
    ensures forall p | p in disk && p != CfgPath(LayoutOf(env, packName).outDir) :: r.disk[p] == disk[p]
    ensures !setupMultiMC ==> Keeps(disk, r.disk)
  {
    if finalUrl !in env.archives then Effect(disk, Failure(ArchiveUnreadable(finalUrl)))
    else if !HasManifest(env.archives[finalUrl]) then Effect(disk, Failure(ManifestMissing))
    else
      var l := LayoutOf(env, packName);
      var a := env.archives[finalUrl];
      Install(WebResolver(env.web, env.decode, env.fuel), env.web.body, l, a.manifest,
              PackTree(l.tempDir, a.entries), disk, setupMultiMC)
  }

  /** An empty `overrides` names the temporary directory itself, which
      always exists: the whole extracted pack is copied over `minecraft`,
      and the configuration step is reached. */
  lemma EmptyOverridesFinish(l: Layout, m: Manifest, entries: seq<Entry>, disk: Disk, setupMultiMC: bool)
    requires m.overrides == ""
    ensures var tree := PackTree(l.tempDir, entries);
      var copied := CopyOverrides(tree, l.tempDir, l.minecraft, disk);
      && copied.result.Success?
      && (!setupMultiMC ==> Finish(l, m, tree, disk, setupMultiMC) == copied)
      && (setupMultiMC ==> Finish(l, m, tree, disk, setupMultiMC) == SetupMultimc(m, l.outDir, copied.disk))
  {
    var tree := PackTree(l.tempDir, entries);
    assert tree[0].path == l.tempDir;
    assert JoinPath(l.tempDir, m.overrides) == l.tempDir;
  }

  /** `downloadModPackFromURL(url, setupMultiMC)`. A final URL that does not
      match the file-name pattern ends the run silently. */
  function Run(env: Env, disk: Disk, url: string, setupMultiMC: bool): (r: Effect<()>)
    ensures disk.Keys <= r.disk.Keys
    ensures !setupMultiMC ==> Keeps(disk, r.disk)
  {
    match GetLocationHeader(env.web, ListingUrl(url), env.fuel)
    case Failure(e) => Effect(disk, Failure(e))
    case Success(finalUrl) =>
      match FileNameGroup(finalUrl)
      case None => Effect(disk, Success(()))
      case Some(packName) => RunPack(env, disk, finalUrl, packName, setupMultiMC)
  }

  /** Only the configuration file can change: every other path that
      existed before the run holds what it held. */
  lemma RunKeepsAllButCfg(env: Env, disk: Disk, url: string, setupMultiMC: bool, p: string)
    requires p in disk && !EndsWith(p, "/instance.cfg")
    ensures p in Run(env, disk, url, setupMultiMC).disk
    ensures Run(env, disk, url, setupMultiMC).disk[p] == disk[p]
  {
    var res := GetLocationHeader(env.web, ListingUrl(url), env.fuel);
    if res.Success? && FileNameGroup(res.value).Some? {
      var cfg := CfgPath(LayoutOf(env, FileNameGroup(res.value).value).outDir);
      CfgPathSuffix(LayoutOf(env, FileNameGroup(res.value).value).outDir);
      assert p != cfg;
    }
  }

  lemma CfgPathSuffix(outDir: string)
    ensures EndsWith(CfgPath(outDir), "/instance.cfg")
  {
    var c := CfgPath(outDir);
    if outDir == "/" {
      assert c == "/instance.cfg";
    } else {
      assert c == outDir + "/instance.cfg";
      assert c[|c| - |"/instance.cfg"|..] == "/instance.cfg";
    }
  }

  /** When the final URL has no `/` (and no line break), the pattern does
      not match and the run does nothing, reporting no error. */
  lemma RunWithoutSlashIsNoop(env: Env, disk: Disk, url: string, setupMultiMC: bool)
    requires GetLocationHeader(env.web, ListingUrl(url), env.fuel).Success?
    requires var f := GetLocationHeader(env.web, ListingUrl(url), env.fuel).value;
      NoLineTerminator(f) && '/' !in f
    ensures Run(env, disk, url, setupMultiMC) == Effect(disk, Success(()))
  {
    FileNameGroupOnUrl(GetLocationHeader(env.web, ListingUrl(url), env.fuel).value);
  }

  /** An archive without `manifest.json` stops the run before anything is
      created in the output. */
  lemma RunWithoutManifest(env: Env, disk: Disk, url: string, setupMultiMC: bool)
    requires GetLocationHeader(env.web, ListingUrl(url), env.fuel).Success?
    requires var f := GetLocationHeader(env.web, ListingUrl(url), env.fuel).value;
      FileNameGroup(f).Some? && f in env.archives && !HasManifest(env.archives[f])
    ensures Run(env, disk, url, setupMultiMC) == Effect(disk, Failure(ManifestMissing))
  {
  }

  /** A completed install leaves the output directory, its `minecraft` and
      `mods` folders, every override target and, when asked, the
      configuration file in place. */
  lemma InstallLayout(resolve: Resolver, body: map<string, string>, l: Layout, m: Manifest, tree: seq<Entry>, disk: Disk, setupMultiMC: bool)
    requires l.minecraft == JoinPath(l.outDir, "minecraft")
    requires Install(resolve, body, l, m, tree, disk, setupMultiMC).result.Success?
    ensures var r := Install(resolve, body, l, m, tree, disk, setupMultiMC).disk;
      && l.outDir in r && l.minecraft in r && JoinPath(l.minecraft, "mods") in r
      && (forall e | e in tree && Under(e.path, JoinPath(l.tempDir, m.overrides)) ::
            Target(JoinPath(l.tempDir, m.overrides), l.minecraft, e.path) in r)
      && (setupMultiMC ==> CfgPath(l.outDir) in r && r[CfgPath(l.outDir)].File?)
  {
    var d := Mkdir(Mkdir(disk, l.outDir), l.minecraft);
    var mods := DownloadModpackFromManifest(resolve, body, l.minecraft, d, m);
    var r := Finish(l, m, tree, mods.disk, setupMultiMC);
    assert Install(resolve, body, l, m, tree, disk, setupMultiMC) == r;
    FinishLayout(l, m, tree, mods.disk, setupMultiMC);
  }

  lemma FinishLayout(l: Layout, m: Manifest, tree: seq<Entry>, disk: Disk, setupMultiMC: bool)
    requires Finish(l, m, tree, disk, setupMultiMC).result.Success?
    ensures var r := Finish(l, m, tree, disk, setupMultiMC).disk;
      && (forall e | e in tree && Under(e.path, JoinPath(l.tempDir, m.overrides)) ::
            Target(JoinPath(l.tempDir, m.overrides), l.minecraft, e.path) in r)
      && (setupMultiMC ==> CfgPath(l.outDir) in r && r[CfgPath(l.outDir)].File?)
  {
    var root := JoinPath(l.tempDir, m.overrides);
    var entries := Walk(tree, root).value;
    var copied := CopyOverrides(tree, root, l.minecraft, disk);
    forall e | e in tree && Under(e.path, root) ensures Target(root, l.minecraft, e.path) in copied.disk {
      assert e in entries;
      assert Target(root, l.minecraft, e.path) in Targets(root, l.minecraft, entries);
    }
  }

  /** Running the same download again over a completed run's output
      changes nothing: every mod is found in place, every override target
      exists, and the configuration is rewritten with the same text. */
  lemma RunTwice(env: Env, disk: Disk, url: string, setupMultiMC: bool)
    requires Run(env, disk, url, setupMultiMC).result.Success?
    ensures var once := Run(env, disk, url, setupMultiMC).disk;
      Run(env, once, url, setupMultiMC) == Effect(once, Success(()))
  {
    var res := GetLocationHeader(env.web, ListingUrl(url), env.fuel);
    if FileNameGroup(res.value).Some? {
      RunPackTwice(env, disk, res.value, FileNameGroup(res.value).value, setupMultiMC);
    }
  }

  lemma RunPackTwice(env: Env, disk: Disk, finalUrl: string, packName: string, setupMultiMC: bool)
    requires RunPack(env, disk, finalUrl, packName, setupMultiMC).result.Success?
    ensures var once := RunPack(env, disk, finalUrl, packName, setupMultiMC).disk;
      RunPack(env, once, finalUrl, packName, setupMultiMC) == Effect(once, Success(()))
  {
    var a := env.archives[finalUrl];
    var l := LayoutOf(env, packName);
    InstallTwice(WebResolver(env.web, env.decode, env.fuel), env.web.body, l, a.manifest,
                 PackTree(l.tempDir, a.entries), disk, setupMultiMC);
  }

  lemma InstallTwice(resolve: Resolver, body: map<string, string>, l: Layout, m: Manifest, tree: seq<Entry>, disk: Disk, setupMultiMC: bool)
    requires l.minecraft == JoinPath(l.outDir, "minecraft")
    requires Install(resolve, body, l, m, tree, disk, setupMultiMC).result.Success?
    ensures var once := Install(resolve, body, l, m, tree, disk, setupMultiMC).disk;
      Install(resolve, body, l, m, tree, once, setupMultiMC) == Effect(once, Success(()))
  {
    var modsDir := JoinPath(l.minecraft, "mods");
    var files := m.files;
    var d := Mkdir(Mkdir(disk, l.outDir), l.minecraft);
    var mods := DownloadAll(resolve, body, modsDir, Mkdir(d, modsDir), files);
    var once := Finish(l, m, tree, mods.disk, setupMultiMC).disk;
    assert Install(resolve, body, l, m, tree, disk, setupMultiMC).disk == once;
    InstallLayout(resolve, body, l, m, tree, disk, setupMultiMC);
    // directories already there
    assert Mkdir(Mkdir(once, l.outDir), l.minecraft) == once;
    assert Mkdir(once, modsDir) == once;
    // every mod is settled
    DownloadAllSettles(resolve, body, modsDir, Mkdir(d, modsDir), files);
    SettledGrows(resolve, modsDir, mods.disk, once, files);
    SettledRunChangesNothing(resolve, body, modsDir, once, files);
    assert DownloadModpackFromManifest(resolve, body, l.minecraft, once, m)
        == Effect(once, Success(DownloadAll(resolve, body, modsDir, once, files).result.value));
    FinishTwice(l, m, tree, mods.disk, setupMultiMC);
  }

  /** Overrides and configuration a second time over their own output. */
  lemma FinishTwice(l: Layout, m: Manifest, tree: seq<Entry>, disk: Disk, setupMultiMC: bool)
    requires Finish(l, m, tree, disk, setupMultiMC).result.Success?
    ensures var once := Finish(l, m, tree, disk, setupMultiMC).disk;
      Finish(l, m, tree, once, setupMultiMC) == Effect(once, Success(()))
  {
    var root := JoinPath(l.tempDir, m.overrides);
    var copied := CopyOverrides(tree, root, l.minecraft, disk);
    var once := Finish(l, m, tree, disk, setupMultiMC).disk;
    FinishLayout(l, m, tree, disk, setupMultiMC);
    var entries := Walk(tree, root).value;
    forall e | e in entries ensures Target(root, l.minecraft, e.path) in once {
      assert e in tree && Under(e.path, root);
    }
    MergeSettled(root, l.minecraft, once, entries);
    if setupMultiMC {
      SetupMultimcIdempotent(m, l.outDir, copied.disk);
    }
  }

  /** Settledness only asks for paths to exist, so it survives growth. */
  lemma SettledGrows(resolve: Resolver, modsDir: string, small: Disk, large: Disk, files: seq<FileData>)
    requires Settled(resolve, modsDir, small, files) && small.Keys <= large.Keys
    ensures Settled(resolve, modsDir, large, files)
  {
  }
}
