/** `downloadModFile` and `downloadModpackFromManifest`: each manifest entry
    is turned into a download URL through two redirect chains, named after
    the last path segment of that URL, and fetched into the mods directory
    unless the server marked it missing or a file of that name exists. */
module Downloads {
  import opened Wrappers
  import opened Strings
  import opened Failures
  import opened Manifests
  import opened Redirects
  import opened Patterns
  import opened Disks

  const ProjectsBase := "http://minecraft.curseforge.com/projects/"

  /** The query the project redirect leaves behind. */
  const CookieQuery := "?cookieTest=1"

  /** A file name ending in this text is the server's "no such file". */
  const MissingMarker := "cookieTest=1"

  /** A manifest entry with the URL it resolved to and the decoded file
      name taken from that URL. */
  datatype ResolvedFile = ResolvedFile(entry: FileData, finalUrl: string, filename: string)

  /** What happened to one entry that raised no exception. */
  datatype Decision = SkippedMissing(name: string) | SkippedExisting(name: string) | Fetched(name: string)

  function ProjectPageUrl(projectID: int): string {
    ProjectsBase + IntToString(projectID)
  }

  /** The project URL with every `?cookieTest=1` removed, followed by
      `/files/<fileID>/download`. */
  function FileDownloadUrl(projectUrl: string, fileID: int): string {
    ReplaceAll(projectUrl, CookieQuery, "") + "/files/" + IntToString(fileID) + "/download"
  }

  /** On a project URL that does not already hold `?cookieTest=1`, a
      trailing one is dropped and an absent one changes nothing. */
  lemma FileDownloadUrlStripsQuery(p: string, fileID: int)
    requires !Contains(p, CookieQuery)
    ensures FileDownloadUrl(p + CookieQuery, fileID) == p + "/files/" + IntToString(fileID) + "/download"
    ensures FileDownloadUrl(p, fileID) == p + "/files/" + IntToString(fileID) + "/download"
  {
    CookieQueryOneMark();
    ReplaceAllTrailing(p, CookieQuery, "");
    assert p + "" == p;
    ReplaceAllAbsent(p, CookieQuery, "");
  }

  /** `?` opens the query and appears nowhere else in it. */
  lemma CookieQueryOneMark()
    ensures forall k | 0 < k < |CookieQuery| :: CookieQuery[k] != CookieQuery[0]
  {
  }

  /** How an entry is resolved to a URL and file name. */
  type Resolver = FileData -> Result<ResolvedFile, Failure>

  /** The two redirect chains and the file-name match of `downloadModFile`.
      `decode` stands for `URLDecoder.decode(_, "UTF-8")`. */
  function ResolveModFile(web: Web, decode: string -> string, fuel: nat, f: FileData): (r: Result<ResolvedFile, Failure>)
    ensures r.Success? ==> r.value.entry == f
    ensures r.Success? ==> r.value.finalUrl !in web.location
    ensures r.Success? ==>
      (FileNameGroup(r.value.finalUrl).Some?
       && r.value.filename == decode(FileNameGroup(r.value.finalUrl).value))
  {
    var projectUrl :- GetLocationHeader(web, ProjectPageUrl(f.projectID), fuel);
    var finalUrl :- GetLocationHeader(web, FileDownloadUrl(projectUrl, f.fileID), fuel);
    match FileNameGroup(finalUrl)
    case None => Failure(PatternMismatch(finalUrl))
    case Some(group) => Success(ResolvedFile(f, finalUrl, decode(group)))
  }

  /** A final URL without `/` fails the file-name match, and the entry
      fails with it. */
  lemma ResolveModFileMismatch(web: Web, decode: string -> string, fuel: nat, f: FileData, projectUrl: string, finalUrl: string)
    requires GetLocationHeader(web, ProjectPageUrl(f.projectID), fuel) == Success(projectUrl)
    requires GetLocationHeader(web, FileDownloadUrl(projectUrl, f.fileID), fuel) == Success(finalUrl)
    requires NoLineTerminator(finalUrl) && '/' !in finalUrl
    ensures ResolveModFile(web, decode, fuel, f) == Failure(PatternMismatch(finalUrl))
  {
    FileNameGroupOnUrl(finalUrl);
  }

  function ModPath(modsDir: string, name: string): string {
    JoinPath(modsDir, name)
  }

  /** The skip tests, in the order `downloadModFile` makes them. */
  function Decide(modsDir: string, disk: Disk, name: string): Decision {
    if EndsWith(name, MissingMarker) then SkippedMissing(name)
    else if ModPath(modsDir, name) in disk then SkippedExisting(name)
    else Fetched(name)
  }

  /** The resolver the downloader uses against `web`. */
  function WebResolver(web: Web, decode: string -> string, fuel: nat): (r: Resolver)
    ensures forall f :: r(f) == ResolveModFile(web, decode, fuel, f)
  {
    f => ResolveModFile(web, decode, fuel, f)
  }

  /** Resolution only issues requests for headers: it is the same whatever
      the bodies behind the URLs are. */
  lemma ResolveModFileIgnoresBody(web: Web, body: map<string, string>, decode: string -> string, fuel: nat, f: FileData)
    ensures ResolveModFile(web.(body := body), decode, fuel, f) == ResolveModFile(web, decode, fuel, f)
  {
    GetLocationHeaderIgnoresBody(web, body, fuel);
  }

  lemma GetLocationHeaderIgnoresBody(web: Web, body: map<string, string>, fuel: nat)
    ensures forall t :: GetLocationHeader(web.(body := body), t, fuel) == GetLocationHeader(web, t, fuel)
  {
    forall t ensures GetLocationHeader(web.(body := body), t, fuel) == GetLocationHeader(web, t, fuel) {
      if Uris.Parse(t).Success? {
        ResolveIgnoresBody(web, body, Uris.Parse(t).value, fuel);
      }
    }
  }

  lemma ResolveIgnoresBody(web: Web, body: map<string, string>, u: Uris.Uri, fuel: nat)
    ensures Resolve(web.(body := body), u, fuel) == Resolve(web, u, fuel)
  {
    var other := web.(body := body);
    forall v ensures StepOf(other)(v) == StepOf(web)(v) {
      assert other.location == web.location;
    }
    DriveSameHops(StepOf(other), StepOf(web), u, fuel);
  }

  /** `downloadModFile` once the entry is resolved; `body` is what
      streaming each URL yields. The file is created before its body is
      read, so a failed read leaves an empty file behind. */
  function DownloadModFile(resolve: Resolver, body: map<string, string>, modsDir: string, disk: Disk, f: FileData): (r: Effect<Decision>)
    ensures Keeps(disk, r.disk)
  {
    match resolve(f)
    case Failure(e) => Effect(disk, Failure(e))
    case Success(rf) =>
      var d := Decide(modsDir, disk, rf.filename);
      if !d.Fetched? then Effect(disk, Success(d))
      else if rf.finalUrl in body then
        Effect(disk[ModPath(modsDir, rf.filename) := File(body[rf.finalUrl])], Success(d))
      else
        Effect(disk[ModPath(modsDir, rf.filename) := File("")], Failure(DownloadFailed(rf.finalUrl)))
  }

  /** The per-file decision: a name ending in `cookieTest=1` writes nothing;
      an existing name is left as it is, whatever the server would stream;
      otherwise exactly one new file of that name is written, holding the
      body of the final URL, or nothing when reading the body fails. */
  lemma DownloadModFileSpec(resolve: Resolver, body: map<string, string>, modsDir: string, disk: Disk, f: FileData)
    ensures var r := DownloadModFile(resolve, body, modsDir, disk, f);
      var rf := resolve(f);
      && (rf.Failure? ==> r == Effect(disk, Failure(rf.error)))
      && (rf.Success? && EndsWith(rf.value.filename, MissingMarker) ==>
            r == Effect(disk, Success(SkippedMissing(rf.value.filename))))
      && (rf.Success? && !EndsWith(rf.value.filename, MissingMarker)
          && ModPath(modsDir, rf.value.filename) in disk ==>
            r == Effect(disk, Success(SkippedExisting(rf.value.filename))))
      && (rf.Success? && !EndsWith(rf.value.filename, MissingMarker)
          && ModPath(modsDir, rf.value.filename) !in disk ==>
            && r.disk.Keys == disk.Keys + {ModPath(modsDir, rf.value.filename)}
            && r.disk[ModPath(modsDir, rf.value.filename)]
               == File(if rf.value.finalUrl in body then body[rf.value.finalUrl] else "")
            && (r.result.Success? <==> rf.value.finalUrl in body)
            && (r.result.Success? ==> r.result.value == Fetched(rf.value.filename)))
  {
  }

  /** The loop over the manifest's files, in list order; the first
      exception ends it, keeping what was already written. */
  function DownloadAll(resolve: Resolver, body: map<string, string>, modsDir: string, disk: Disk, files: seq<FileData>): (r: Effect<seq<Decision>>)
    ensures Keeps(disk, r.disk)
    ensures r.result.Success? ==> |r.result.value| == |files|
    decreases |files|
  {
    if |files| == 0 then Effect(disk, Success([]))
    else
      var first := DownloadModFile(resolve, body, modsDir, disk, files[0]);
      match first.result
      case Failure(e) => Effect(first.disk, Failure(e))
      case Success(d) =>
        var rest := DownloadAll(resolve, body, modsDir, first.disk, files[1..]);
        match rest.result
        case Failure(e) => Effect(rest.disk, Failure(e))
        case Success(ds) => Effect(rest.disk, Success([d] + ds))
  }

  /** `downloadModpackFromManifest`: create `mods` under the output
      directory if absent, then download every entry. */
  function DownloadModpackFromManifest(resolve: Resolver, body: map<string, string>, outputDir: string, disk: Disk, m: Manifest): (r: Effect<seq<Decision>>)
    ensures Keeps(disk, r.disk)
    ensures JoinPath(outputDir, "mods") in r.disk
  {
    DownloadAll(resolve, body, JoinPath(outputDir, "mods"), Mkdir(disk, JoinPath(outputDir, "mods")), m.files)
  }

  /** Running one more entry after a run: what `DownloadAll` does on a list
      extended at its end. */
  function Then(resolve: Resolver, body: map<string, string>, modsDir: string, before: Effect<seq<Decision>>, f: FileData): Effect<seq<Decision>> {
    match before.result
    case Failure(e) => before
    case Success(ds) =>
      var e := DownloadModFile(resolve, body, modsDir, before.disk, f);
      match e.result
      case Failure(err) => Effect(e.disk, Failure(err))
      case Success(d) => Effect(e.disk, Success(ds + [d]))
  }

  /** Entries are processed strictly in list order: the run over
      `files + [f]` is the run over `files` followed by `f`. */
  lemma {:induction false} DownloadAllInOrder(resolve: Resolver, body: map<string, string>, modsDir: string, disk: Disk, files: seq<FileData>, f: FileData)
    ensures DownloadAll(resolve, body, modsDir, disk, files + [f])
         == Then(resolve, body, modsDir, DownloadAll(resolve, body, modsDir, disk, files), f)
    decreases |files|
  {
    if |files| == 0 {
      assert files + [f] == [f];
      assert [f][1..] == [];
      var e := DownloadModFile(resolve, body, modsDir, disk, f);
      if e.result.Success? {
        assert [e.result.value] + [] == [] + [e.result.value];
      }
    } else {
      assert (files + [f])[0] == files[0];
      assert (files + [f])[1..] == files[1..] + [f];
      var first := DownloadModFile(resolve, body, modsDir, disk, files[0]);
      if first.result.Success? {
        DownloadAllInOrder(resolve, body, modsDir, first.disk, files[1..], f);
        var rest := DownloadAll(resolve, body, modsDir, first.disk, files[1..]);
        if rest.result.Success? {
          var e := DownloadModFile(resolve, body, modsDir, rest.disk, f);
          if e.result.Success? {
            assert [first.result.value] + (rest.result.value + [e.result.value])
                == ([first.result.value] + rest.result.value) + [e.result.value];
          }
        }
      }
    }
  }

  /** The paths written for the fetched entries of a run. */
  function FetchedPaths(modsDir: string, ds: seq<Decision>): set<string> {
    set i | 0 <= i < |ds| && ds[i].Fetched? :: ModPath(modsDir, ds[i].name)
  }

  lemma FetchedPathsCons(modsDir: string, d: Decision, ds: seq<Decision>)
    ensures FetchedPaths(modsDir, [d] + ds)
         == (if d.Fetched? then {ModPath(modsDir, d.name)} else {}) + FetchedPaths(modsDir, ds)
  {
    var all := [d] + ds;
    forall p | p in FetchedPaths(modsDir, all)
      ensures p in (if d.Fetched? then {ModPath(modsDir, d.name)} else {}) + FetchedPaths(modsDir, ds)
    {
      var i :| 0 <= i < |all| && all[i].Fetched? && p == ModPath(modsDir, all[i].name);
      if i > 0 {
        assert all[i] == ds[i - 1];
      }
    }
    forall p | p in FetchedPaths(modsDir, ds) ensures p in FetchedPaths(modsDir, all) {
      var i :| 0 <= i < |ds| && ds[i].Fetched? && p == ModPath(modsDir, ds[i].name);
      assert all[i + 1] == ds[i];
    }
    if d.Fetched? {
      assert all[0] == d;
    }
  }

  /** After a successful run the disk holds exactly what it held before
      plus one file per fetched entry, and every decision is about the
      file name of the entry in the same position. */
  lemma {:induction false} DownloadAllAdds(resolve: Resolver, body: map<string, string>, modsDir: string, disk: Disk, files: seq<FileData>)
    requires DownloadAll(resolve, body, modsDir, disk, files).result.Success?
    ensures var r := DownloadAll(resolve, body, modsDir, disk, files);
      && r.disk.Keys == disk.Keys + FetchedPaths(modsDir, r.result.value)
      && forall i | 0 <= i < |files| ::
           resolve(files[i]).Success? && r.result.value[i].name == resolve(files[i]).value.filename
  {
    DownloadAllKeys(resolve, body, modsDir, disk, files);
    DownloadAllNames(resolve, body, modsDir, disk, files);
  }

  lemma {:induction false} DownloadAllKeys(resolve: Resolver, body: map<string, string>, modsDir: string, disk: Disk, files: seq<FileData>)
    requires DownloadAll(resolve, body, modsDir, disk, files).result.Success?
    ensures var r := DownloadAll(resolve, body, modsDir, disk, files);
      r.disk.Keys == disk.Keys + FetchedPaths(modsDir, r.result.value)
    decreases |files|
  {
    if |files| > 0 {
      var first := DownloadModFile(resolve, body, modsDir, disk, files[0]);
      DownloadModFileSpec(resolve, body, modsDir, disk, files[0]);
      DownloadAllKeys(resolve, body, modsDir, first.disk, files[1..]);
      var rest := DownloadAll(resolve, body, modsDir, first.disk, files[1..]);
      FetchedPathsCons(modsDir, first.result.value, rest.result.value);
    }
  }

  lemma {:induction false} DownloadAllNames(resolve: Resolver, body: map<string, string>, modsDir: string, disk: Disk, files: seq<FileData>)
    requires DownloadAll(resolve, body, modsDir, disk, files).result.Success?
    ensures var r := DownloadAll(resolve, body, modsDir, disk, files);
      forall i | 0 <= i < |files| ::
        resolve(files[i]).Success? && r.result.value[i].name == resolve(files[i]).value.filename
    decreases |files|
  {
    if |files| > 0 {
      var first := DownloadModFile(resolve, body, modsDir, disk, files[0]);
      DownloadModFileSpec(resolve, body, modsDir, disk, files[0]);
      DownloadAllNames(resolve, body, modsDir, first.disk, files[1..]);
      var rest := DownloadAll(resolve, body, modsDir, first.disk, files[1..]);
      var all := [first.result.value] + rest.result.value;
      forall i | 0 <= i < |files|
        ensures resolve(files[i]).Success? && all[i].name == resolve(files[i]).value.filename
      {
        if i > 0 {
          assert files[i] == files[1..][i - 1];
        }
      }
    }
  }

  /** Every entry resolves, and is either marked missing or already has
      its file on disk. */
  ghost predicate Settled(resolve: Resolver, modsDir: string, disk: Disk, files: seq<FileData>) {
    forall i | 0 <= i < |files| ::
      resolve(files[i]).Success?
      && (EndsWith(resolve(files[i]).value.filename, MissingMarker)
          || ModPath(modsDir, resolve(files[i]).value.filename) in disk)
  }

  /** A successful run leaves the disk settled for its own files. */
  lemma {:induction false} DownloadAllSettles(resolve: Resolver, body: map<string, string>, modsDir: string, disk: Disk, files: seq<FileData>)
    requires DownloadAll(resolve, body, modsDir, disk, files).result.Success?
    ensures Settled(resolve, modsDir, DownloadAll(resolve, body, modsDir, disk, files).disk, files)
    decreases |files|
  {
    if |files| > 0 {
      var first := DownloadModFile(resolve, body, modsDir, disk, files[0]);
      DownloadModFileSpec(resolve, body, modsDir, disk, files[0]);
      DownloadAllSettles(resolve, body, modsDir, first.disk, files[1..]);
      var r := DownloadAll(resolve, body, modsDir, disk, files);
      forall i | 0 <= i < |files|
        ensures resolve(files[i]).Success?
          && (EndsWith(resolve(files[i]).value.filename, MissingMarker)
              || ModPath(modsDir, resolve(files[i]).value.filename) in r.disk)
      {
        if i > 0 {
          assert files[i] == files[1..][i - 1];
        }
      }
    }
  }

  /** On a settled disk a run writes nothing and skips every entry. */
  lemma {:induction false} SettledRunChangesNothing(resolve: Resolver, body: map<string, string>, modsDir: string, disk: Disk, files: seq<FileData>)
    requires Settled(resolve, modsDir, disk, files)
    ensures var r := DownloadAll(resolve, body, modsDir, disk, files);
      r.disk == disk && r.result.Success? && FetchedPaths(modsDir, r.result.value) == {}
    decreases |files|
  {
    if |files| > 0 {
      DownloadModFileSpec(resolve, body, modsDir, disk, files[0]);
      assert Settled(resolve, modsDir, disk, files[1..]) by {
        forall i | 0 <= i < |files[1..]|
          ensures resolve(files[1..][i]).Success?
            && (EndsWith(resolve(files[1..][i]).value.filename, MissingMarker)
                || ModPath(modsDir, resolve(files[1..][i]).value.filename) in disk)
        {
          assert files[1..][i] == files[i + 1];
        }
      }
      SettledRunChangesNothing(resolve, body, modsDir, disk, files[1..]);
      var r := DownloadAll(resolve, body, modsDir, disk, files);
      var ds := DownloadAll(resolve, body, modsDir, disk, files[1..]).result.value;
      FetchedPathsCons(modsDir, r.result.value[0], ds);
      assert r.result.value == [r.result.value[0]] + ds;
    }
  }

  /** A second run over the same manifest adds nothing and changes nothing. */
  lemma RerunAddsNothing(resolve: Resolver, body: map<string, string>, modsDir: string, disk: Disk, files: seq<FileData>)
    requires DownloadAll(resolve, body, modsDir, disk, files).result.Success?
    ensures var once := DownloadAll(resolve, body, modsDir, disk, files).disk;
      DownloadAll(resolve, body, modsDir, once, files).disk == once
      && DownloadAll(resolve, body, modsDir, once, files).result.Success?
  {
    DownloadAllSettles(resolve, body, modsDir, disk, files);
    SettledRunChangesNothing(resolve, body, modsDir, DownloadAll(resolve, body, modsDir, disk, files).disk, files);
  }
}
