/**
  The build-time fetcher of `scripts/fetch_jar.py`: validation of the
  `[tool.modelarium]` table, the Maven Central URL and file name built
  from the coordinates, the `MODELARIUM_JAR_URL` override, and the order
  of effects `main` performs.

  The parsed table and the environment are maps from names to strings;
  the download, the hashing and the printing are named effects whose
  results are not modelled.
 */
module FetchJar {
  import opened Wrappers
  import opened Names

  const GroupKey: string := "java_group_id"
  const ArtifactKey: string := "java_artifact_id"
  const VersionKey: string := "java_version"

  /** `required`, in its fixed order. */
  const RequiredKeys: seq<string> := [GroupKey, ArtifactKey, VersionKey]

  const MavenCentral: string := "https://repo1.maven.org/maven2/"
  const UrlOverrideVar: string := "MODELARIUM_JAR_URL"

  /** The `RuntimeError` of `load_cfg`, carrying the `missing` list. */
  datatype ConfigError = MissingKeys(keys: seq<string>)

  datatype Coordinate = Coordinate(group: string, artifact: string, version: string)

  /** What `main` does to the outside world, in order. */
  datatype Effect =
    | MakeDirs(dir: string)
    | Download(url: string, dest: string)
    | ReportDigest(path: string)

  /** `[k for k in required if k not in cfg]` */
  function Missing(required: seq<string>, cfg: map<string, string>): (missing: seq<string>)
    ensures forall k :: k in missing <==> k in required && k !in cfg
    ensures |missing| <= |required|
  {
    if required == [] then []
    else (if required[0] !in cfg then [required[0]] else []) + Missing(required[1..], cfg)
  }

  /** The missing keys come in the fixed order group, artifact, version. */
  lemma MissingInRequiredOrder(cfg: map<string, string>)
    ensures Missing(RequiredKeys, cfg)
         == (if GroupKey !in cfg then [GroupKey] else [])
          + (if ArtifactKey !in cfg then [ArtifactKey] else [])
          + (if VersionKey !in cfg then [VersionKey] else [])
  {
    var rest := [ArtifactKey, VersionKey];
    assert RequiredKeys[1..] == rest && rest[1..] == [VersionKey] && [VersionKey][1..] == [];
    assert Missing([VersionKey], cfg) == if VersionKey !in cfg then [VersionKey] else [];
    assert Missing(rest, cfg) == (if ArtifactKey !in cfg then [ArtifactKey] else []) + Missing([VersionKey], cfg);
  }

  predicate HasRequiredKeys(cfg: map<string, string>) {
    GroupKey in cfg && ArtifactKey in cfg && VersionKey in cfg
  }

  /** `load_cfg()` on an already parsed table. */
  function LoadCfg(cfg: map<string, string>): (r: Result<map<string, string>, ConfigError>)
    ensures r.Failure? <==> !HasRequiredKeys(cfg)
    ensures r.Success? ==> r.value == cfg
    ensures r.Failure? ==> r.error.keys != []
    ensures r.Failure? ==> forall k :: k in r.error.keys <==> k in RequiredKeys && k !in cfg
  {
    var missing := Missing(RequiredKeys, cfg);
    assert GroupKey in RequiredKeys && ArtifactKey in RequiredKeys && VersionKey in RequiredKeys;
    if missing != [] then
      assert missing[0] in RequiredKeys && missing[0] !in cfg;
      Failure(MissingKeys(missing))
    else Success(cfg)
  }

  /** `s.replace(old, new)` for single characters. */
  function ReplaceChar(s: string, from: char, to: char): (r: string)
    ensures |r| == |s|
    ensures forall i :: 0 <= i < |s| ==> r[i] == if s[i] == from then to else s[i]
  {
    if s == [] then []
    else [if s[0] == from then to else s[0]] + ReplaceChar(s[1..], from, to)
  }

  /** `group.replace(".", "/")` */
  function GroupPath(group: string): (p: string)
    ensures |p| == |group|
    ensures '.' !in p
    ensures '.' !in group ==> p == group
  {
    ReplaceChar(group, '.', '/')
  }

  /** Replacing characters commutes with concatenation. */
  lemma ReplaceCharAppend(a: string, b: string, from: char, to: char)
    ensures ReplaceChar(a + b, from, to) == ReplaceChar(a, from, to) + ReplaceChar(b, from, to)
  {
    var l, r := ReplaceChar(a + b, from, to), ReplaceChar(a, from, to) + ReplaceChar(b, from, to);
    assert |l| == |r|;
    forall i | 0 <= i < |l| ensures l[i] == r[i] {
      if i < |a| { assert (a + b)[i] == a[i]; } else { assert (a + b)[i] == b[i - |a|]; }
    }
  }

  /** `sep.join(segments)` */
  function JoinSegments(segments: seq<string>, sep: char): (r: string)
    ensures |segments| > 0 ==> StartsWith(r, segments[0])
    ensures |segments| > 0 ==> EndsWith(r, segments[|segments| - 1])
    decreases |segments|
  {
    if segments == [] then ""
    else if |segments| == 1 then segments[0]
    else segments[0] + [sep] + JoinSegments(segments[1..], sep)
  }

  /**
    A group id is its dot-separated segments; its path is the same
    segments separated by slashes.
   */
  lemma {:induction false} GroupPathOfSegments(segments: seq<string>)
    requires forall i :: 0 <= i < |segments| ==> '.' !in segments[i]
    ensures GroupPath(JoinSegments(segments, '.')) == JoinSegments(segments, '/')
    decreases |segments|
  {
    if |segments| > 1 {
      var head, rest := segments[0], segments[1..];
      var tail := JoinSegments(rest, '.');
      assert JoinSegments(segments, '.') == head + ['.'] + tail;
      assert JoinSegments(segments, '/') == head + ['/'] + JoinSegments(rest, '/');
      ReplaceCharAppend(head + ['.'], tail, '.', '/');
      ReplaceCharAppend(head, ['.'], '.', '/');
      assert ReplaceChar(head, '.', '/') == GroupPath(head) == head;
      assert ReplaceChar(['.'], '.', '/') == ['/'];
      GroupPathOfSegments(rest);
    }
  }

  /** `f"{artifact}-{version}.jar"` */
  function JarName(artifact: string, version: string): (name: string)
    ensures EndsWith(name, ".jar")
    ensures StartsWith(name, artifact + "-")
    ensures |name| == |artifact| + |version| + 5
    ensures name[|artifact| + 1..|name| - 4] == version
  {
    artifact + "-" + version + ".jar"
  }

  /** The file name determines the artifact and version once the artifact's length is known. */
  lemma JarNameInjective(a1: string, v1: string, a2: string, v2: string)
    requires |a1| == |a2| && JarName(a1, v1) == JarName(a2, v2)
    ensures a1 == a2 && v1 == v2
  {
    var n := JarName(a1, v1);
    assert a1 == n[..|a1|] && a2 == JarName(a2, v2)[..|a2|];
    assert v1 == n[|a1| + 1..|n| - 4] && v2 == JarName(a2, v2)[|a2| + 1..|n| - 4];
  }

  /** The Maven 2 layout on Maven Central: `<base><group path>/<artifact>/<version>/<jar name>`. */
  function DefaultUrl(c: Coordinate): (url: string)
    ensures StartsWith(url, MavenCentral)
    ensures EndsWith(url, "/" + JarName(c.artifact, c.version))
    ensures EndsWith(url, ".jar")
  {
    var name := JarName(c.artifact, c.version);
    var url := MavenCentral + GroupPath(c.group) + "/" + c.artifact + "/" + c.version + "/" + name;
    assert url[|url| - |name|..] == name;
    url
  }

  /** The address in the middle of the URL is the group path, artifact and version. */
  lemma DefaultUrlLayout(c: Coordinate)
    ensures var url, n := DefaultUrl(c), |MavenCentral|;
            var g, a := |c.group|, |c.artifact|;
            |url| == n + g + a + |c.version| + 3 + |JarName(c.artifact, c.version)|
            && url[n..n + g] == GroupPath(c.group)
            && url[n + g] == '/'
            && url[n + g + 1..n + g + 1 + a] == c.artifact
            && url[n + g + 1 + a] == '/'
            && url[n + g + a + 2..n + g + a + 2 + |c.version|] == c.version
  {
  }

  /** The URL is the base followed by the group path, artifact, version and file name, "/"-separated. */
  lemma DefaultUrlParts(c: Coordinate)
    ensures DefaultUrl(c)
         == MavenCentral + GroupPath(c.group) + "/" + c.artifact + "/" + c.version + "/" + JarName(c.artifact, c.version)
  {
  }

  /** The worked example: `a.b.c:x:1.0`. */
  lemma DefaultUrlExample(c: Coordinate)
    requires c == Coordinate("a.b.c", "x", "1.0")
    ensures DefaultUrl(c) == "https://repo1.maven.org/maven2/a/b/c/x/1.0/x-1.0.jar"
  {
    DefaultUrlParts(c);
    GroupPathExample(c.group);
    assert JarName(c.artifact, c.version) == "x-1.0.jar";
    ExampleUrlText();
  }

  /**
    The pieces of the worked example's URL, written out. Kept apart from
    `DefaultUrlExample` so that comparing the literal strings is done in a
    small proof context.
   */
  lemma ExampleUrlText()
    ensures MavenCentral + "a/b/c" + "/" + "x" + "/" + "1.0" + "/" + "x-1.0.jar"
         == "https://repo1.maven.org/maven2/a/b/c/x/1.0/x-1.0.jar"
  {
  }

  /** `"a.b.c".replace(".", "/")` */
  lemma GroupPathExample(group: string)
    requires group == "a.b.c"
    ensures GroupPath(group) == "a/b/c"
  {
    var segments := ["a", "b", "c"];
    assert segments[1..] == ["b", "c"] && segments[1..][1..] == ["c"];
    assert JoinSegments(segments, '.') == group;
    assert JoinSegments(segments, '/') == "a/b/c";
    GroupPathOfSegments(segments);
  }

  /** `os.environ.get("MODELARIUM_JAR_URL", jar_url)`: any set value, even "", wins. */
  function ResolveUrl(env: map<string, string>, built: string): (url: string)
    ensures UrlOverrideVar in env ==> url == env[UrlOverrideVar]
    ensures UrlOverrideVar !in env ==> url == built
  {
    if UrlOverrideVar in env then env[UrlOverrideVar] else built
  }

  /**
    `main()`: validate the table, build the name and URL, create the jars
    directory, apply the override, download to `jarsDir / jar_name` and
    report that file's digest. A configuration error is raised before any
    effect.
   */
  function Main(cfg: map<string, string>, env: map<string, string>, jarsDir: string)
    : (r: Result<seq<Effect>, ConfigError>)
    ensures r.Failure? <==> !HasRequiredKeys(cfg)
    ensures r.Failure? ==> r.error == MissingKeys(Missing(RequiredKeys, cfg))
    ensures r.Success? ==> |r.value| == 3 && r.value[0] == MakeDirs(jarsDir)
  {
    match LoadCfg(cfg)
    case Failure(e) => Failure(e)
    case Success(table) =>
      var c := Coordinate(table[GroupKey], table[ArtifactKey], table[VersionKey]);
      var jarName := JarName(c.artifact, c.version);
      var jarPath := Join(jarsDir, jarName);
      var jarUrl := ResolveUrl(env, DefaultUrl(c));
      Success([MakeDirs(jarsDir), Download(jarUrl, jarPath), ReportDigest(jarPath)])
  }

  /** No download is attempted unless all three keys are present. */
  lemma NoFetchWithoutConfig(cfg: map<string, string>, env: map<string, string>, jarsDir: string)
    ensures Main(cfg, env, jarsDir).Success? <==> HasRequiredKeys(cfg)
    ensures Main(cfg, env, jarsDir).Success? ==> Main(cfg, env, jarsDir).value[1].Download?
  {
  }

  /** The download goes to `jarsDir / "<artifact>-<version>.jar"` from the resolved URL. */
  lemma MainDownload(cfg: map<string, string>, env: map<string, string>, jarsDir: string)
    requires HasRequiredKeys(cfg)
    ensures var r := Main(cfg, env, jarsDir);
            var c := Coordinate(cfg[GroupKey], cfg[ArtifactKey], cfg[VersionKey]);
            r.Success?
            && r.value[1] == Download(ResolveUrl(env, DefaultUrl(c)), Join(jarsDir, JarName(c.artifact, c.version)))
            && r.value[2] == ReportDigest(Join(jarsDir, JarName(c.artifact, c.version)))
  {
  }

  /** `MODELARIUM_JAR_URL` replaces only the URL: everything else is the same in any environment. */
  lemma OverrideOnlyChangesUrl(cfg: map<string, string>, env1: map<string, string>,
                               env2: map<string, string>, jarsDir: string)
    requires HasRequiredKeys(cfg)
    ensures var r1, r2 := Main(cfg, env1, jarsDir), Main(cfg, env2, jarsDir);
            r1.Success? && r2.Success? && |r1.value| == |r2.value|
            && forall i :: 0 <= i < |r1.value| && i != 1 ==> r1.value[i] == r2.value[i]
    ensures var r1, r2 := Main(cfg, env1, jarsDir), Main(cfg, env2, jarsDir);
            r1.Success? && r2.Success? && r1.value[1].dest == r2.value[1].dest
  {
  }

  /** With the override set, even to "", that value is the URL downloaded from. */
  lemma UrlOverrideTakesPrecedence(cfg: map<string, string>, env: map<string, string>, jarsDir: string)
    requires HasRequiredKeys(cfg) && UrlOverrideVar in env
    ensures var r := Main(cfg, env, jarsDir);
            r.Success? && r.value[1] == Download(env[UrlOverrideVar], Join(jarsDir, JarName(cfg[ArtifactKey], cfg[VersionKey])))
  {
  }
}
