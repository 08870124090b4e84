# Blaspheme modpack downloader — a Dafny model

Blaspheme downloads a CurseForge modpack. The flow:

1. It follows the redirects of the pack's `/files/latest` page to the URL of the pack archive.
2. It unpacks the archive and reads `manifest.json`.
3. It downloads every mod the manifest lists into `minecraft/mods` of an output directory, resolving each mod through two more redirect chains.
4. It copies the pack's overrides folder over `minecraft`.
5. Optionally, it writes a MultiMC `instance.cfg`.

This project models that core as pure functions and proves properties about them:

- the URL and name shaping;
- the regular expressions the code uses, with Java's meaning of `.` and `$`;
- the redirect loop of `getLocationHeader`;
- the per-file download decision and the loop over the manifest;
- the overrides merge;
- the `instance.cfg` text;
- `Manifest.getForgeVersion` and `FileData.toString`.

Outside effects are stood in for as follows:

- **Network:** a map from request URL to its `Location` header (`Redirects.Web.location`), plus a map from URL to the bytes a download yields (`Web.body`). A URL outside `Web.location` answers without a `Location`. That covers a response without the header and a request that fails, because `getHeaderField` swallows the failure and returns `null`.
- **Output directory:** a map from path to directory or file contents (`Disks.Disk`).
- **Pack archive:** given, in walk order, together with the manifest Gson would read from it (`Pipeline.Archive`). The walked tree is the temporary directory itself, which `getModpackData` creates before extracting, followed by those entries (`Pipeline.PackTree`).
- **`URLDecoder.decode`:** an uninterpreted function parameter `decode`.

A failure is an `Effect` that carries the disk as it was left. Nothing is rolled back: the downloader does not clean up after a failure either.

Modules:

| module | file | role |
|---|---|---|
| `Wrappers` | `wrappers.dfy` | `Option`, `Result` |
| `Strings` | `strings.dfy` | prefixes, occurrences, literal replace-all, decimal integers |
| `Failures` | `failures.dfy` | the exceptions that end a run |
| `Patterns` | `patterns.dfy` | the three regular expressions: `.$`, `.*?/([^/]*)$` and `.zip` |
| `Manifests` | `manifest.dfy` | the manifest records, `getForgeVersion`, `FileData.toString` |
| `Uris` | `uri.dfy` | bracket escaping, `new URI(s)`, and `new URI(scheme, host, path, fragment)` |
| `Redirects` | `redirect.dfy` | `getLocationHeader`; its loop is also stated once over any hop function (`Drive`), and `Resolve` is that loop over the server's hops |
| `Disks` | `disk.dfy` | paths and the output directory |
| `Downloads` | `downloads.dfy` | `downloadModFile`, `downloadModpackFromManifest` |
| `Overrides` | `overrides.dfy` | `copyOverrides` |
| `Launcher` | `launcher.dfy` | `setupMultimcInfo` |
| `Pipeline` | `pipeline.dfy` | `downloadModPackFromURL`, `getModpackData`, `getOutputDir` |

Three behaviours of the code worth noting:

- **Relative redirects.** A `Location` starting with `/` is resolved against the scheme, host and fragment of the hop just requested. It is not resolved against the original URL (`Redirects.FollowSpec`).
- **Forge loaders.** `getForgeVersion` selects loaders whose id starts with `forge`, not `forge-`. It then drops six characters, so the id `forge` alone fails (`Manifests.ForgeVersionOfForgeDash`).
- **Notes line.** The notes line of `instance.cfg` names `CMPDL` as the generator.

## Model

| member | source | states |
|---|---|---|
| Patterns.FileNameGroup | src/main/java/net/darkhax/blaspheme/Blaspheme.java:45 | when the file-name pattern matches, group 1 is a proper suffix of the URL |
| Patterns.FileNameGroupSpec | src/main/java/net/darkhax/blaspheme/Blaspheme.java:45 | the pattern matches exactly when some `/` has no line terminator before it and no `/` after it; group 1 is the text after that `/` |
| Patterns.SplitUnique | src/main/java/net/darkhax/blaspheme/Blaspheme.java:45 | at most one `/` can split a match, so group 1 is unambiguous |
| Patterns.FileNameGroupOnUrl | src/main/java/net/darkhax/blaspheme/Blaspheme.java:45 | on text without line terminators, the pattern matches iff the text contains `/`; the group is the possibly empty text after the last `/` and holds no `/` |
| Patterns.RemoveDotDollarDropsLast | src/main/java/net/darkhax/blaspheme/Blaspheme.java:66-67 | `replaceAll(".$", "")` removes exactly the last character when that character is not a line terminator |
| Patterns.RemoveDotZip | src/main/java/net/darkhax/blaspheme/Blaspheme.java:260 | deleting the matches of `.zip` never lengthens the name |
| Patterns.RemoveDotZipNoZip | src/main/java/net/darkhax/blaspheme/Blaspheme.java:260 | a name without the substring `zip` is unchanged |
| Patterns.RemoveDotZipExtension | src/main/java/net/darkhax/blaspheme/Blaspheme.java:259-260 | `x.zip` becomes `x` when `x` holds no `zip` |
| Patterns.RemoveDotZipWildcard | src/main/java/net/darkhax/blaspheme/Blaspheme.java:260 | `.` is a wildcard: in `c d zip x .zip` the character `d` before the inner `zip` is deleted with it, giving `c x` (so `myzipmod.zip` gives `mmod`) |
| Patterns.RemoveDotZipNotIdempotent | src/main/java/net/darkhax/blaspheme/Blaspheme.java:260 | one pass can leave a new match: `aazipzip` gives `azip`, which gives the empty name |
| Manifests.ForgeVersionFirstMatch | src/main/java/net/darkhax/blaspheme/Manifest.java:62-69 | the first loader whose id starts with `forge` decides the version: its id minus six characters; this succeeds iff the id has at least six characters |
| Manifests.ForgeVersionNoForge | src/main/java/net/darkhax/blaspheme/Manifest.java:64-68 | with no loader id starting with `forge`, including an empty list, the version is `Unknown` |
| Manifests.ForgeVersionOfForgeDash | src/main/java/net/darkhax/blaspheme/Manifest.java:65-66 | a leading `forge-v` gives exactly `v`; a leading `forge` fails in the substring |
| Manifests.ForgeVersionIgnoresPrimary | src/main/java/net/darkhax/blaspheme/Manifest.java:64-66 | the `primary` flags do not affect the result |
| Manifests.FileDataStringRoundTrip | src/main/java/net/darkhax/blaspheme/Manifest.java:125-128 | for all ids, `projectID/fileID` has exactly one `/`, and the two sides parse back to the two ids |
| Uris.EscapeBracketsSpec | src/main/java/net/darkhax/blaspheme/Blaspheme.java:333-334 | escaping leaves no bracket, keeps every other character in order, and is the identity on bracket-free text |
| Uris.EscapeBracketsAppend | src/main/java/net/darkhax/blaspheme/Blaspheme.java:333-334 | escaping distributes over concatenation |
| Uris.ParseLegal | src/main/java/net/darkhax/blaspheme/Blaspheme.java:319 | a parsed URI keeps its text; parsing succeeds only on text with no illegal character (controls, Unicode space separators, and the ASCII characters no component admits), and, unless the URI is opaque, with no bracket before its query and fragment |
| Uris.ParseQueryBrackets | src/main/java/net/darkhax/blaspheme/Blaspheme.java:319 | brackets in the query are accepted: `s:/?[]` parses |
| Uris.ParsePathBrackets | src/main/java/net/darkhax/blaspheme/Blaspheme.java:319 | brackets in the path are refused: `s:/[]` does not parse |
| Uris.ParseScheme | src/main/java/net/darkhax/blaspheme/Blaspheme.java:319 | the parsed scheme is a valid scheme name that, with `:`, starts the text |
| Uris.ParseFragment | src/main/java/net/darkhax/blaspheme/Blaspheme.java:319 | the parsed fragment is the text after the final `#` |
| Uris.ParseHost | src/main/java/net/darkhax/blaspheme/Blaspheme.java:319 | the parsed host is a piece of the text |
| Uris.ParseNoBrackets | src/main/java/net/darkhax/blaspheme/Blaspheme.java:340 | a URI parsed from bracket-free text, such as an escaped `Location`, holds no bracket in any component |
| Uris.RebuildNoBrackets | src/main/java/net/darkhax/blaspheme/Blaspheme.java:337 | a URI rebuilt from bracket-free parts is bracket-free |
| Redirects.Resolve | src/main/java/net/darkhax/blaspheme/Blaspheme.java:322-343 | every URL the loop returns is one whose request yields no `Location`: the response has no such header, or the request fails and the failure is swallowed |
| Redirects.FollowSpec | src/main/java/net/darkhax/blaspheme/Blaspheme.java:333-340 | a `/`-prefixed `Location` keeps the scheme, host and fragment of the current hop and takes the escaped value as path; any other value is parsed as a new URI |
| Redirects.ResolveNoBrackets | src/main/java/net/darkhax/blaspheme/Blaspheme.java:322-343 | from a bracket-free start, every hop and the returned URL are bracket-free |
| Redirects.ResolveMoreFuel | src/main/java/net/darkhax/blaspheme/Blaspheme.java:322-341 | a chain that ends within the fuel gives the same result with any larger fuel |
| Redirects.NoRedirectReturnsTarget | src/main/java/net/darkhax/blaspheme/Blaspheme.java:317-331 | when the first response has no `Location`, the target itself is returned |
| Redirects.DriveLoop | src/main/java/net/darkhax/blaspheme/Blaspheme.java:322-343 | for any hop function, the `for (;;)` loop computes the recursive chain of hops |
| Redirects.DriveMoreFuel | src/main/java/net/darkhax/blaspheme/Blaspheme.java:322-341 | for any hop function, a chain that ends within the fuel ends the same way with more fuel |
| Redirects.DriveKeeps | src/main/java/net/darkhax/blaspheme/Blaspheme.java:322-343 | for any hop function, a property every redirect preserves holds along the chain, so the returned URL has what every final hop guarantees |
| Redirects.DriveSameHops | src/main/java/net/darkhax/blaspheme/Blaspheme.java:322-343 | two hop functions that answer alike give the same loop result |
| Redirects.ResolveLoop | src/main/java/net/darkhax/blaspheme/Blaspheme.java:322-343 | the `for (;;)` loop computes the recursive resolution, and its result carries no `Location` |
| Redirects.GetLocationHeaderMethod | src/main/java/net/darkhax/blaspheme/Blaspheme.java:317-344 | parse then loop equals `getLocationHeader` |
| Disks.Mkdir | src/main/java/net/darkhax/blaspheme/Blaspheme.java:183-184 | `if (!exists) mkdir`: the path exists afterwards, a path it creates is a directory, and nothing that existed changes |
| Downloads.FileDownloadUrlStripsQuery | src/main/java/net/darkhax/blaspheme/Blaspheme.java:282-284 | on a project URL that holds no other `?cookieTest=1`, a trailing one is removed before `/files/<id>/download` is appended; a URL without it is extended unchanged |
| Downloads.ResolveModFile | src/main/java/net/darkhax/blaspheme/Blaspheme.java:279-292 | a resolved entry's final URL has no `Location`, matches the file-name pattern, and names the file `decode(group 1)` |
| Downloads.ResolveModFileMismatch | src/main/java/net/darkhax/blaspheme/Blaspheme.java:286-289 | a final URL without `/` makes the entry fail with a pattern mismatch |
| Downloads.ResolveModFileIgnoresBody | src/main/java/net/darkhax/blaspheme/Blaspheme.java:326-328 | resolution reads only headers, so file bodies do not affect it |
| Downloads.DownloadModFile | src/main/java/net/darkhax/blaspheme/Blaspheme.java:277-309 | whatever happens, every existing path keeps its contents |
| Downloads.DownloadModFileSpec | src/main/java/net/darkhax/blaspheme/Blaspheme.java:291-307 | a `cookieTest=1` name writes nothing; an existing name is left as it is; any other name adds exactly one file, holding the body or, when reading fails, nothing |
| Downloads.DownloadAll | src/main/java/net/darkhax/blaspheme/Blaspheme.java:186-187 | the loop keeps every existing path; on success it makes one decision per entry |
| Downloads.DownloadModpackFromManifest | src/main/java/net/darkhax/blaspheme/Blaspheme.java:174-192 | `mods` exists afterwards and nothing existing changes |
| Downloads.DownloadAllInOrder | src/main/java/net/darkhax/blaspheme/Blaspheme.java:186-187 | entries are processed in list order: running `files + [f]` is running `files`, then `f` |
| Downloads.DownloadAllAdds | src/main/java/net/darkhax/blaspheme/Blaspheme.java:181-187 | after success the paths are the old paths plus one per fetched entry, and decision `i` names entry `i`'s file |
| Downloads.DownloadAllSettles | src/main/java/net/darkhax/blaspheme/Blaspheme.java:294-307 | after success every entry is either marked missing or present on disk |
| Downloads.SettledRunChangesNothing | src/main/java/net/darkhax/blaspheme/Blaspheme.java:301-307 | on such a disk a run fetches nothing and writes nothing |
| Downloads.RerunAddsNothing | src/main/java/net/darkhax/blaspheme/Blaspheme.java:181-187 | a second run over the same manifest leaves the disk as the first left it |
| Overrides.Walk | src/main/java/net/darkhax/blaspheme/Blaspheme.java:207 | the walk fails iff the root is absent, and otherwise lists exactly the entries at or under the root |
| Overrides.TargetRelocates | src/main/java/net/darkhax/blaspheme/Blaspheme.java:216 | a path `root + rest` whose `rest` does not repeat the root goes to `out + rest` |
| Overrides.TargetReplacesEveryOccurrence | src/main/java/net/darkhax/blaspheme/Blaspheme.java:216 | the replacement is literal and global: a root text repeated below the root is replaced there too |
| Overrides.Merge | src/main/java/net/darkhax/blaspheme/Blaspheme.java:207-221 | existing paths are kept, and the new path set is the old one plus every entry's target |
| Overrides.CopyOverrides | src/main/java/net/darkhax/blaspheme/Blaspheme.java:202-225 | only a missing overrides folder fails, and then nothing changes; per-entry failures are swallowed |
| Overrides.MergeFirstWins | src/main/java/net/darkhax/blaspheme/Blaspheme.java:216-221 | a target that did not exist receives the first entry mapped to it |
| Overrides.MergeSettled | src/main/java/net/darkhax/blaspheme/Blaspheme.java:216-221 | when every target exists, the merge changes nothing |
| Overrides.MergeIdempotent | src/main/java/net/darkhax/blaspheme/Blaspheme.java:207-221 | merging twice gives the same result as merging once |
| Overrides.CopyOverridesIdempotent | src/main/java/net/darkhax/blaspheme/Blaspheme.java:202-225 | copying the overrides twice leaves what copying once leaves |
| Launcher.CfgLines | src/main/java/net/darkhax/blaspheme/Blaspheme.java:244 | the configuration has fourteen lines |
| Launcher.SplitTerminate | src/main/java/net/darkhax/blaspheme/Blaspheme.java:244 | cutting `\n`-terminated lines apart gives back the lines |
| Launcher.CfgTextLines | src/main/java/net/darkhax/blaspheme/Blaspheme.java:244 | the text splits back into exactly the fourteen configuration lines, in order: line 2 is `IntendedVersion=<mc version>`, line 12 is `name=<name> <version>`, and line 13 holds the Forge version in the notes |
| Launcher.SetupMultimc | src/main/java/net/darkhax/blaspheme/Blaspheme.java:233-246 | no path other than `instance.cfg` changes |
| Launcher.SetupMultimcOverwrites | src/main/java/net/darkhax/blaspheme/Blaspheme.java:237-245 | the file is overwritten, not appended: it holds exactly the text, or is empty when the Forge lookup fails, and then the run fails with that error |
| Launcher.SetupMultimcIdempotent | src/main/java/net/darkhax/blaspheme/Blaspheme.java:233-246 | writing the configuration twice leaves what writing it once leaves |
| Pipeline.ListingUrlSpec | src/main/java/net/darkhax/blaspheme/Blaspheme.java:64-69 | a trailing `/` loses exactly one character (`x//` keeps one `/`), then `/files/latest` is appended |
| Pipeline.ZipName | src/main/java/net/darkhax/blaspheme/Blaspheme.java:112 | the archive name ends in `.zip`; a name that already does is kept |
| Pipeline.ZipNameIdempotent | src/main/java/net/darkhax/blaspheme/Blaspheme.java:112 | adding the suffix is idempotent |
| Pipeline.OutputNameOfArchive | src/main/java/net/darkhax/blaspheme/Blaspheme.java:259-260 | a decoded `x.zip` whose stem holds no `zip` names the output directory `x` |
| Pipeline.Install | src/main/java/net/darkhax/blaspheme/Blaspheme.java:81-92 | no path is lost; everything but `instance.cfg` keeps its contents, and without MultiMC nothing existing changes |
| Pipeline.RunPack | src/main/java/net/darkhax/blaspheme/Blaspheme.java:77-92 | the same guarantees as `Install`, once the pack name is known |
| Pipeline.Run | src/main/java/net/darkhax/blaspheme/Blaspheme.java:60-97 | a run never removes a path, and without MultiMC it changes nothing existing |
| Pipeline.RunKeepsAllButCfg | src/main/java/net/darkhax/blaspheme/Blaspheme.java:60-97 | every existing path not named `instance.cfg` keeps its contents |
| Pipeline.RunWithoutSlashIsNoop | src/main/java/net/darkhax/blaspheme/Blaspheme.java:71-75 | a final URL without `/` ends the run silently with the disk unchanged |
| Pipeline.RunWithoutManifest | src/main/java/net/darkhax/blaspheme/Blaspheme.java:155-160 | an archive without `manifest.json` fails the run before anything is created |
| Pipeline.Finish | src/main/java/net/darkhax/blaspheme/Blaspheme.java:88-91 | the overrides and configuration lose no path, change nothing but `instance.cfg`, and without MultiMC change nothing existing |
| Pipeline.FinishLayout | src/main/java/net/darkhax/blaspheme/Blaspheme.java:88-91 | after success every override target exists and, when asked, `instance.cfg` is a file |
| Pipeline.EmptyOverridesFinish | src/main/java/net/darkhax/blaspheme/Blaspheme.java:202-221 | an empty `overrides` names the temporary directory, which `getModpackData` created and the walk lists first, so the copy succeeds and the configuration step follows |
| Pipeline.FinishTwice | src/main/java/net/darkhax/blaspheme/Blaspheme.java:88-91 | copying overrides and writing the configuration again over their own output changes nothing |
| Pipeline.InstallLayout | src/main/java/net/darkhax/blaspheme/Blaspheme.java:81-92 | after a completed install the output, `minecraft` and `mods` paths, every override target and, when asked, `instance.cfg` are present |
| Pipeline.InstallTwice | src/main/java/net/darkhax/blaspheme/Blaspheme.java:81-92 | installing again over a completed install changes nothing |
| Pipeline.RunTwice | src/main/java/net/darkhax/blaspheme/Blaspheme.java:60-97 | running the same download again over a completed run changes nothing and succeeds |

## Left out

- HTTP transport. The connection, the reading of the `Location` header and the streamed copy become the maps `Web.location` and `Web.body`. A body is either read whole or fails at once, so a partly written file is not modelled.
- Unzipping the archive and parsing `manifest.json`. They are handled by zip4j and Gson. The model takes the extracted entries, in `Files.walk` order, and the parsed `Manifest` as given. Nulls that Gson leaves for absent fields are not modelled.
- The downloaded archive file. The `.zip` file inside the temporary directory is not among the walked entries.
- Leftovers in the temporary directory from earlier runs. They are not modelled either.
- `URLDecoder.decode` is a function parameter. Its UTF-8 and `+` decoding are not modelled.
- `java.net.URI`, which is modelled in simplified form:
  - Only illegal characters, brackets outside the query, fragment and opaque part, the shape of `%` escapes, the scheme name and the appendix B split of RFC 3986 are checked.
  - Other non-ASCII characters are accepted in every component after the scheme. Java's finer per-component rules for them are not modelled.
  - IPv6 literals, registry-name rules and the quoting done by the four-argument constructor are not modelled. That constructor would escape `%` and `?` in the path.
- `Redirects.Step`: only a URI without a scheme fails before the request. A scheme with no URL handler (`toURL` throws) or a connection that is not HTTP (the cast throws) is treated like an HTTP request.
- `Redirects.Resolve`: the Java loop has no bound. The model is given `fuel` hops, and a longer chain fails with `HopLimit`. `Redirects.ResolveMoreFuel` shows that more fuel never changes a result reached within the bound.
- File-system behaviour beyond the paths the code touches:
  - `mkdir` and `Files.copy` are not checked for a missing parent directory;
  - paths are not normalised;
  - `getTempDir` and `deleteOnExit` only shape the temporary directory's name;
  - the directory of the running jar is a parameter.
- Logging through `LOGGER`. It has no effect on the result.
- Java `int` width. The identifiers are unbounded integers, and `toString` of a negative id keeps its `-`.
- The Swing test program `src/test/java/net/darkhax/blasphemetest/Main.java`. It is a user interface with an unsynchronised flag shared with a background thread, and is not part of this model.
