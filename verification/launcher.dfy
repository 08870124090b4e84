/** `setupMultimcInfo`: the MultiMC `instance.cfg` written into the output
    directory, fourteen `\n`-terminated lines in a fixed order. */
module Launcher {
  import opened Wrappers
  import opened Strings
  import opened Failures
  import opened Manifests
  import opened Disks

  /** The lines of the file, without their terminators. */
  function CfgLines(m: Manifest, forge: string): (r: seq<string>)
    ensures |r| == 14
  {
    [ "InstanceType=OneSix",
      "IntendedVersion=" + m.minecraft.version,
      "LogPrePostOutput=true",
      "OverrideCommands=false",
      "OverrideConsole=false",
      "OverrideJavaArgs=false",
      "OverrideJavaLocation=false",
      "OverrideMemory=false",
      "OverrideWindow=false",
      "iconKey=default",
      "lastLaunchTime=0",
      "name=" + m.name + " " + m.version,
      "notes=Modpack by " + m.author + ". Generated by CMPDL. Using Forge " + forge + ".",
      "totalTimePlayed=0" ]
  }

  /** Each line followed by `\n`. */
  function Terminate(lines: seq<string>): string {
    if |lines| == 0 then "" else lines[0] + "\n" + Terminate(lines[1..])
  }

  /** Index of the first `\n`, or the length when there is none. */
  function FirstNewline(s: string): (k: nat)
    ensures k <= |s| && '\n' !in s[..k]
    ensures k < |s| ==> s[k] == '\n'
  {
    if |s| == 0 || s[0] == '\n' then 0
    else
      var k := 1 + FirstNewline(s[1..]);
      assert s[..k] == [s[0]] + s[1..][..k - 1];
      k
  }

  /** Cut a text into lines at each `\n`; a final line without `\n` is
      kept. */
  function SplitLines(s: string): seq<string>
    decreases |s|
  {
    if |s| == 0 then []
    else
      var k := FirstNewline(s);
      if k == |s| then [s] else [s[..k]] + SplitLines(s[k + 1..])
  }

  predicate NoNewlines(lines: seq<string>) {
    forall i | 0 <= i < |lines| :: '\n' !in lines[i]
  }

  /** Cutting terminated lines apart gives the lines back. */
  lemma {:induction false} SplitTerminate(lines: seq<string>)
    requires NoNewlines(lines)
    ensures SplitLines(Terminate(lines)) == lines
  {
    if |lines| > 0 {
      var l := lines[0];
      var rest := Terminate(lines[1..]);
      var s := Terminate(lines);
      assert s == l + "\n" + rest;
      assert '\n' !in l;
      FirstNewlineAt(l, rest);
      assert s[|l| + 1..] == rest;
      assert s[..|l|] == l;
      SplitTerminate(lines[1..]);
    }
  }

  lemma {:induction false} FirstNewlineAt(l: string, rest: string)
    requires '\n' !in l
    ensures FirstNewline(l + "\n" + rest) == |l|
  {
    var s := l + "\n" + rest;
    if |l| > 0 {
      assert s[0] == l[0];
      assert s[1..] == l[1..] + "\n" + rest;
      FirstNewlineAt(l[1..], rest);
    }
  }

  /** The file text: the fourteen lines, each terminated. */
  function CfgText(m: Manifest, forge: string): string {
    Terminate(CfgLines(m, forge))
  }

  /** Read back line by line, the text is exactly the fourteen lines, in
      order: the Minecraft version on the second, name and version on the
      twelfth, the Forge version inside the notes on the thirteenth. */
  lemma CfgTextLines(m: Manifest, forge: string)
    requires '\n' !in m.minecraft.version && '\n' !in m.name && '\n' !in m.version
    requires '\n' !in m.author && '\n' !in forge
    ensures SplitLines(CfgText(m, forge)) == CfgLines(m, forge)
    ensures var lines := SplitLines(CfgText(m, forge));
      && |lines| == 14
      && lines[0] == "InstanceType=OneSix"
      && lines[1] == "IntendedVersion=" + m.minecraft.version
      && lines[11] == "name=" + m.name + " " + m.version
      && lines[12] == "notes=Modpack by " + m.author + ". Generated by CMPDL. Using Forge " + forge + "."
      && lines[13] == "totalTimePlayed=0"
  {
    CfgLinesNoNewlines(m, forge);
    SplitTerminate(CfgLines(m, forge));
  }

  lemma CfgLinesNoNewlines(m: Manifest, forge: string)
    requires '\n' !in m.minecraft.version && '\n' !in m.name && '\n' !in m.version
    requires '\n' !in m.author && '\n' !in forge
    ensures NoNewlines(CfgLines(m, forge))
  {
    var lines := CfgLines(m, forge);
    NoNewlineConcat("IntendedVersion=", m.minecraft.version);
    NameLineNoNewline(m);
    NotesLineNoNewline(m.author, forge);
    FixedLinesNoNewlines();
    forall i | 0 <= i < |lines| ensures '\n' !in lines[i] {
    }
  }

  /** The eleven lines that do not depend on the manifest. */
  lemma FixedLinesNoNewlines()
    ensures '\n' !in "InstanceType=OneSix" && '\n' !in "LogPrePostOutput=true"
    ensures '\n' !in "OverrideCommands=false" && '\n' !in "OverrideConsole=false"
    ensures '\n' !in "OverrideJavaArgs=false" && '\n' !in "OverrideJavaLocation=false"
    ensures '\n' !in "OverrideMemory=false" && '\n' !in "OverrideWindow=false"
    ensures '\n' !in "iconKey=default" && '\n' !in "lastLaunchTime=0"
    ensures '\n' !in "totalTimePlayed=0"
  {
    OverrideLinesNoNewlines();
  }

  lemma OverrideLinesNoNewlines()
    ensures '\n' !in "OverrideCommands=false" && '\n' !in "OverrideConsole=false"
    ensures '\n' !in "OverrideJavaArgs=false" && '\n' !in "OverrideJavaLocation=false"
    ensures '\n' !in "OverrideMemory=false" && '\n' !in "OverrideWindow=false"
  {
  }

  lemma NameLineNoNewline(m: Manifest)
    requires '\n' !in m.name && '\n' !in m.version
    ensures '\n' !in "name=" + m.name + " " + m.version
  {
    NoNewlineConcat("name=", m.name);
    NoNewlineConcat("name=" + m.name, " ");
    NoNewlineConcat("name=" + m.name + " ", m.version);
  }

  lemma NotesLineNoNewline(author: string, forge: string)
    requires '\n' !in author && '\n' !in forge
    ensures '\n' !in "notes=Modpack by " + author + ". Generated by CMPDL. Using Forge " + forge + "."
  {
    NoNewlineConcat("notes=Modpack by ", author);
    NoNewlineConcat("notes=Modpack by " + author, ". Generated by CMPDL. Using Forge ");
    NoNewlineConcat("notes=Modpack by " + author + ". Generated by CMPDL. Using Forge ", forge);
    NoNewlineConcat("notes=Modpack by " + author + ". Generated by CMPDL. Using Forge " + forge, ".");
  }

  lemma NoNewlineConcat(a: string, b: string)
    requires '\n' !in a && '\n' !in b
    ensures '\n' !in a + b
  {
  }

  /** Where the configuration is written. */
  function CfgPath(outDir: string): string {
    JoinPath(outDir, "instance.cfg")
  }

  /** `setupMultimcInfo`. A directory standing at the file's path cannot be
      opened for writing. Otherwise the `FileWriter` truncates the file
      before the Forge version is computed, so a failing Forge lookup
      leaves it empty. */
  function SetupMultimc(m: Manifest, outDir: string, disk: Disk): (r: Effect<()>)
    ensures var cfg := CfgPath(outDir);
      forall p | p in disk && p != cfg :: p in r.disk && r.disk[p] == disk[p]
  {
    var cfg := CfgPath(outDir);
    if cfg in disk && disk[cfg].Dir? then Effect(disk, Failure(NotAFile(cfg)))
    else match ManifestForgeVersion(m)
      case Failure(e) => Effect(disk[cfg := File("")], Failure(e))
      case Success(forge) => Effect(disk[cfg := File(CfgText(m, forge))], Success(()))
  }

  /** The file is overwritten, never appended to: whatever it held before,
      afterwards it holds exactly the generated text (or nothing, when the
      Forge lookup fails), and no other path changes. */
  lemma SetupMultimcOverwrites(m: Manifest, outDir: string, disk: Disk)
    requires var cfg := CfgPath(outDir); !(cfg in disk && disk[cfg].Dir?)
    ensures var cfg := CfgPath(outDir);
      var r := SetupMultimc(m, outDir, disk);
      && r.disk.Keys == disk.Keys + {cfg}
      && (r.result.Success? <==> ManifestForgeVersion(m).Success?)
      && (r.result.Success? ==> r.disk[cfg] == File(CfgText(m, ManifestForgeVersion(m).value)))
      && (r.result.Failure? ==> r.disk[cfg] == File("") && r.result.error == ManifestForgeVersion(m).error)
  {
  }

  /** Writing the configuration twice leaves what writing it once leaves. */
  lemma SetupMultimcIdempotent(m: Manifest, outDir: string, disk: Disk)
    ensures var once := SetupMultimc(m, outDir, disk).disk;
      SetupMultimc(m, outDir, once).disk == once
  {
  }
}
