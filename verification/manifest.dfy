/** The pack manifest as Gson reads it from `manifest.json`, the Forge
    version rule, and the `projectID/fileID` rendering of a file entry. */
module Manifests {
  import opened Wrappers
  import opened Strings
  import opened Failures

  datatype Modloader = Modloader(id: string, primary: bool)

  datatype MinecraftData = MinecraftData(version: string, modLoaders: seq<Modloader>)

  /** One mod file of the pack, named by two numeric identifiers. */
  datatype FileData = FileData(projectID: int, fileID: int, required: bool)

  /** `files` keeps the order of the JSON array; that order is the
      download order. */
  datatype Manifest = Manifest(
    minecraft: MinecraftData,
    manifestType: string,
    manifestVersion: string,
    name: string,
    version: string,
    author: string,
    projectID: int,
    files: seq<FileData>,
    overrides: string)

  // ---------------------------------------------------------------------
  // getForgeVersion

  /** The test the loop applies: the id starts with `forge` (not `forge-`). */
  predicate IsForge(loader: Modloader) {
    StartsWith(loader.id, "forge")
  }

  /** `id.substring("forge-".length())`, which throws when the id is shorter
      than six characters. */
  function DropForgePrefix(id: string): Result<string, Failure> {
    if |id| < 6 then Failure(ForgeIdTooShort(id)) else Success(id[6..])
  }

  /** `getForgeVersion` over the list of mod loaders: the first loader
      whose id starts with `forge` decides, otherwise `Unknown`. */
  function ForgeVersion(loaders: seq<Modloader>): Result<string, Failure> {
    if |loaders| == 0 then Success("Unknown")
    else if IsForge(loaders[0]) then DropForgePrefix(loaders[0].id)
    else ForgeVersion(loaders[1..])
  }

  function ManifestForgeVersion(m: Manifest): Result<string, Failure> {
    ForgeVersion(m.minecraft.modLoaders)
  }

  /** The first loader whose id starts with `forge` decides the result;
      loaders after it are never looked at. */
  lemma {:induction false} ForgeVersionFirstMatch(loaders: seq<Modloader>, i: int)
    requires 0 <= i < |loaders| && IsForge(loaders[i])
    requires forall j | 0 <= j < i :: !IsForge(loaders[j])
    ensures ForgeVersion(loaders) == DropForgePrefix(loaders[i].id)
    ensures ForgeVersion(loaders).Success? <==> |loaders[i].id| >= 6
    ensures ForgeVersion(loaders).Success? ==>
      loaders[i].id == loaders[i].id[..6] + ForgeVersion(loaders).value
  {
    if i > 0 {
      ForgeVersionFirstMatch(loaders[1..], i - 1);
    }
  }

  /** Without any loader id starting with `forge` (an empty list too) the
      result is `Unknown`. */
  lemma {:induction false} ForgeVersionNoForge(loaders: seq<Modloader>)
    requires forall j | 0 <= j < |loaders| :: !IsForge(loaders[j])
    ensures ForgeVersion(loaders) == Success("Unknown")
  {
    if |loaders| > 0 {
      ForgeVersionNoForge(loaders[1..]);
    }
  }

  /** For a leading id `forge-<v>` the version is exactly `<v>`; for the id
      `forge` alone the substring fails. */
  lemma ForgeVersionOfForgeDash(v: string, primary: bool, rest: seq<Modloader>)
    ensures ForgeVersion([Modloader("forge-" + v, primary)] + rest) == Success(v)
    ensures ForgeVersion([Modloader("forge", primary)] + rest).Failure?
  {
    var l := [Modloader("forge-" + v, primary)] + rest;
    assert l[0].id[..5] == "forge";
    assert l[0].id[6..] == v;
    var m := [Modloader("forge", primary)] + rest;
    assert m[0].id[..5] == "forge";
  }

  /** The `primary` flags play no part: lists with the same ids give the
      same version. */
  lemma {:induction false} ForgeVersionIgnoresPrimary(a: seq<Modloader>, b: seq<Modloader>)
    requires |a| == |b| && forall j | 0 <= j < |a| :: a[j].id == b[j].id
    ensures ForgeVersion(a) == ForgeVersion(b)
  {
    if |a| > 0 {
      ForgeVersionIgnoresPrimary(a[1..], b[1..]);
    }
  }

  // ---------------------------------------------------------------------
  // FileData.toString

  /** `projectID + "/" + fileID`. */
  function FileDataString(f: FileData): string {
    IntToString(f.projectID) + "/" + IntToString(f.fileID)
  }

  /** The rendering has exactly one `/`, and the two sides of it parse back
      to the two identifiers. */
  lemma FileDataStringRoundTrip(f: FileData)
    ensures var s := FileDataString(f);
      exists k :: 0 <= k < |s| && s[k] == '/' && '/' !in s[..k] && '/' !in s[k + 1..]
        && IsIntString(s[..k]) && ParseInt(s[..k]) == f.projectID
        && IsIntString(s[k + 1..]) && ParseInt(s[k + 1..]) == f.fileID
  {
    var p := IntToString(f.projectID);
    var q := IntToString(f.fileID);
    var s := FileDataString(f);
    var k := |p|;
    assert s[..k] == p;
    assert s[k + 1..] == q;
    NoSlashInInt(f.projectID);
    NoSlashInInt(f.fileID);
    IntRoundTrip(f.projectID);
    IntRoundTrip(f.fileID);
  }

  lemma NoSlashInInt(x: int)
    ensures '/' !in IntToString(x)
  {
    var r := IntToString(x);
    if x < 0 {
      assert r == [r[0]] + r[1..];
    }
  }
}
