/**
  How the fetcher and the locator meet: `fetch_jar.py` stages
  `<artifact>-<version>.jar` in `modelarium/_jars`, and `jvm.py` later
  picks a JAR from that same directory unless `MODELARIUM_JAR` is set.
 */
module Provisioning {
  import opened Wrappers
  import opened Names
  import opened Jvm
  import opened FetchJar

  /** The staged file is always one the locator treats as a candidate. */
  lemma FetchedNameIsJar(artifact: string, version: string)
    ensures IsJar(JarName(artifact, version))
  {
  }

  /**
    When the staged JAR is the only JAR in the bundle directory and no
    `MODELARIUM_JAR` override is set, the locator returns the very path
    `main` downloaded to.
   */
  lemma FetchedJarIsLocated(cfg: map<string, string>, fetchEnv: map<string, string>,
                            runEnv: map<string, string>, canon: string -> Option<string>,
                            jarsDir: string, entries: seq<string>)
    requires HasRequiredKeys(cfg)
    requires !OverrideSet(runEnv)
    requires Candidates(entries) == [JarName(cfg[ArtifactKey], cfg[VersionKey])]
    ensures var r := Main(cfg, fetchEnv, jarsDir);
            r.Success? && GetJarPath(runEnv, canon, jarsDir, entries) == Success(r.value[1].dest)
  {
    var name := JarName(cfg[ArtifactKey], cfg[VersionKey]);
    SelectSingleCandidate(entries, name);
    MainDownload(cfg, fetchEnv, jarsDir);
  }

  /**
    Once the staged JAR is in the listing the locator cannot fail, and
    what it picks sorts no earlier than the staged name.
   */
  lemma StagedJarNeverLost(artifact: string, version: string, entries: seq<string>)
    requires JarName(artifact, version) in entries
    ensures SelectJar(entries).Success?
    ensures LexLe(JarName(artifact, version), SelectJar(entries).value)
  {
    FetchedNameIsJar(artifact, version);
  }

  /**
    The two overrides read an empty value differently: an empty
    `MODELARIUM_JAR` is ignored, an empty `MODELARIUM_JAR_URL` is the URL.
   */
  lemma EmptyOverridesDiffer(cfg: map<string, string>, env: map<string, string>,
                             canon: string -> Option<string>, jarsDir: string, entries: seq<string>)
    requires HasRequiredKeys(cfg)
    requires JarOverrideVar in env && env[JarOverrideVar] == ""
    requires UrlOverrideVar in env && env[UrlOverrideVar] == ""
    ensures GetJarPath(env, canon, jarsDir, entries) == BundledJarPath(jarsDir, entries)
    ensures Main(cfg, env, jarsDir).Success? && Main(cfg, env, jarsDir).value[1].url == ""
  {
    NoOverrideFallsBack(env, canon, jarsDir, entries);
    UrlOverrideTakesPrecedence(cfg, env, jarsDir);
  }
}
