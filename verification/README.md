# Modelarium JAR provisioning, modelled in Dafny

Modelarium for Python ships a Java archive (the Modelarium JAR) and needs two
small pieces of logic around it:

- **the locator** (`modelarium/jvm.py`) decides at run time which JAR to
  launch. A non-empty `MODELARIUM_JAR` environment variable wins; otherwise
  the `_jars` bundle directory is scanned for entries whose name ends in
  `.jar`, none is an error (`FileNotFoundError`), and of several the one whose
  name sorts last is taken;
- **the fetcher** (`scripts/fetch_jar.py`) reads the `[tool.modelarium]`
  table, refuses it when any of `java_group_id`, `java_artifact_id`,
  `java_version` is missing (naming every missing key), builds the file name
  `<artifact>-<version>.jar` and the Maven Central URL of that file in the
  Maven 2 repository layout, lets `MODELARIUM_JAR_URL` replace the URL, then
  downloads into the bundle directory and reports the file's SHA-256.

Both are modelled as pure functions over explicit inputs: the environment and
the parsed table are `map<string, string>`, the bundle directory is its path
plus the entry names in listing order, and `Path(p).expanduser().resolve()` is
a function parameter `canon` that gives the canonical path, or `None` where
expansion or resolution raises (an unknown `~user`, for one); which paths
those are is not modelled. `main`'s
outside-world actions are a list of effects (`MakeDirs`, `Download`,
`ReportDigest`); a configuration error yields no effects at all.

Files:

- `wrappers.dfy` — `Option` and `Result`, standing in for the raised exceptions.
- `names.dfy` — `endswith`/`startswith`, joining a directory and a file name,
  and Python's `str` ordering (`LexLe`: lexicographic by code point, a proper
  prefix first) with its reflexivity, totality, antisymmetry and transitivity.
- `jvm.dfy` — module `Jvm`: the locator.
- `fetch_jar.dfy` — module `FetchJar`: validation, name and URL building,
  the URL override and `main`.
- `provisioning.dfy` — module `Provisioning`: how the fetched file and the
  locator meet, and how the two environment overrides differ.

`sorted(jars, key=name)[-1]` is modelled literally: a sort (an insertion sort
proved to yield a sorted permutation) followed by taking the last element,
which is then proved to be the greatest candidate. Since names are compared as
whole strings, equal keys are equal names, so the stability of Python's sort
does not affect the result.

## Model

| member | source | states |
|---|---|---|
| `Names.EndsWithAppend` | modelarium/jvm.py:13 | any string followed by a suffix ends with that suffix (`str.endswith`) |
| `Names.EndsWithSplit` | modelarium/jvm.py:13 | a string that ends with a suffix is some string followed by that suffix |
| `Names.Join` | scripts/fetch_jar.py:54 | `dir / name` is exactly the directory, then "/", then the name: it starts with the directory, ends with "/" and the name, and has nothing in between (text join, see Left out) |
| `Names.LexLeReflexive` | modelarium/jvm.py:17 | every string compares at most itself under Python's `str` order |
| `Names.LexLeTotal` | modelarium/jvm.py:17 | any two strings are comparable, so `sorted` by name has a well-defined last element |
| `Names.LexLeAntisymmetric` | modelarium/jvm.py:17 | two strings each at most the other are equal, so the greatest name is unique |
| `Names.LexLeTransitive` | modelarium/jvm.py:17 | the order is transitive |
| `Names.LexLeCommonPrefix` | modelarium/jvm.py:17 | a shared prefix does not change how two strings compare |
| `Jvm.Candidates` | modelarium/jvm.py:13 | a name is kept exactly when it is a directory entry ending in ".jar"; never more entries than the listing |
| `Jvm.CandidatesAppend` | modelarium/jvm.py:13 | the filter distributes over concatenation of listings, i.e. it keeps listing order |
| `Jvm.CandidatesSingle` | modelarium/jvm.py:13 | a one-entry listing is kept exactly when the entry ends in ".jar" |
| `Jvm.SortByName` | modelarium/jvm.py:17 | `sorted` by name yields a list ordered by Python string comparison that is a permutation of its input |
| `Jvm.LastByName` | modelarium/jvm.py:16-17 | the last element after sorting is one of the candidates and at least every candidate |
| `Jvm.SelectJar` | modelarium/jvm.py:12-17 | fails with NoBundledJar exactly when no entry ends in ".jar"; otherwise returns an entry that ends in ".jar" and sorts at or after every such entry |
| `Jvm.BundledJarPath` | modelarium/jvm.py:8-18 | fails with NoBundledJar exactly when no entry ends in ".jar"; on success the path is the bundle directory joined with the selected entry, the ".jar" entry that sorts last |
| `Jvm.SelectSingleCandidate` | modelarium/jvm.py:16-17 | with exactly one candidate, that candidate is returned |
| `Jvm.SelectDependsOnlyOnNames` | modelarium/jvm.py:17 | two listings holding the same names give the same result or the same error |
| `Jvm.BundledPermutationInvariant` | modelarium/jvm.py:13-17 | any permutation of the directory listing gives the same path or the same error |
| `Jvm.SelectIsNotVersionAware` | modelarium/jvm.py:16-17 | of `<stem>10.jar` and `<stem>2.jar` the latter is chosen: the order is on names, not versions |
| `Jvm.GetJarPath` | modelarium/jvm.py:21-28 | fails with NoBundledJar exactly when the override is absent or empty and no entry ends in ".jar"; fails with UnresolvableOverride exactly when the override is non-empty and canonicalising it fails |
| `Jvm.OverrideIgnoresBundle` | modelarium/jvm.py:25-27 | a non-empty `MODELARIUM_JAR` yields its canonicalised value, or the canonicalisation error, whatever the bundle directory and its contents |
| `Jvm.NoOverrideFallsBack` | modelarium/jvm.py:25-28 | an absent or empty `MODELARIUM_JAR` yields exactly `bundled_jar_path`'s result, error included |
| `FetchJar.Missing` | scripts/fetch_jar.py:22-23 | a key is reported missing exactly when it is required and absent from the table |
| `FetchJar.MissingInRequiredOrder` | scripts/fetch_jar.py:22-23 | the missing keys are listed in the fixed order group id, artifact id, version |
| `FetchJar.LoadCfg` | scripts/fetch_jar.py:19-26 | fails exactly when one of the three keys is absent, with a non-empty list naming exactly the absent keys; on success returns the table unchanged |
| `FetchJar.ReplaceChar` | scripts/fetch_jar.py:49 | same length; every occurrence of the old character becomes the new one and every other character is kept |
| `FetchJar.GroupPath` | scripts/fetch_jar.py:49 | the group path has the group's length, contains no ".", and equals the group when it has no "." |
| `FetchJar.JoinSegments` | scripts/fetch_jar.py:49 | `sep.join(segments)` of a non-empty list starts with the first segment and ends with the last |
| `FetchJar.GroupPathOfSegments` | scripts/fetch_jar.py:49 | a group made of dot-free segments joined by "." becomes the same segments joined by "/" |
| `FetchJar.JarName` | scripts/fetch_jar.py:50 | the file name starts with `<artifact>-`, ends with ".jar", holds exactly the version between them, and is five characters longer than artifact and version together |
| `FetchJar.JarNameInjective` | scripts/fetch_jar.py:50 | for artifacts of one length, the file name determines artifact and version |
| `FetchJar.DefaultUrl` | scripts/fetch_jar.py:51 | the URL starts with the Maven Central base and ends with "/" followed by the file name |
| `FetchJar.DefaultUrlParts` | scripts/fetch_jar.py:49-51 | the URL is the Maven Central base, the group path, "/", the artifact, "/", the version, "/" and the file name |
| `FetchJar.DefaultUrlLayout` | scripts/fetch_jar.py:49-51 | after the base come the group path, "/", the artifact, "/", the version, then "/" and the file name |
| `FetchJar.GroupPathExample` | scripts/fetch_jar.py:49 | `"a.b.c".replace(".", "/")` is `a/b/c` |
| `FetchJar.DefaultUrlExample` | scripts/fetch_jar.py:49-51 | `a.b.c:x:1.0` gives `https://repo1.maven.org/maven2/a/b/c/x/1.0/x-1.0.jar` |
| `FetchJar.ResolveUrl` | scripts/fetch_jar.py:57 | a `MODELARIUM_JAR_URL` that is present, even empty, is the URL; otherwise the built URL is |
| `FetchJar.Main` | scripts/fetch_jar.py:43-64 | fails exactly when a key is missing, with the `load_cfg` error; on success performs three effects, creating the jars directory first |
| `FetchJar.NoFetchWithoutConfig` | scripts/fetch_jar.py:44-60 | a download is attempted exactly when all three keys are present |
| `FetchJar.MainDownload` | scripts/fetch_jar.py:49-62 | the download goes from the resolved URL to `Names.Join(<jars dir>, "<artifact>-<version>.jar")`, and that same file's digest is reported |
| `FetchJar.OverrideOnlyChangesUrl` | scripts/fetch_jar.py:53-60 | two environments give the same effects except the download URL; the destination is the same |
| `FetchJar.UrlOverrideTakesPrecedence` | scripts/fetch_jar.py:57-60 | with `MODELARIUM_JAR_URL` present the download is from exactly its value into the usual destination |
| `Provisioning.FetchedNameIsJar` | scripts/fetch_jar.py:50 | the staged file name always passes the locator's ".jar" filter |
| `Provisioning.FetchedJarIsLocated` | modelarium/jvm.py:8-28 | when the staged JAR is the bundle's only JAR and no override is set, the locator returns the path `main` downloaded to |
| `Provisioning.StagedJarNeverLost` | modelarium/jvm.py:13-17 | with the staged JAR in the listing the locator cannot fail and picks a name sorting no earlier |
| `Provisioning.EmptyOverridesDiffer` | scripts/fetch_jar.py:57 | an empty `MODELARIUM_JAR` is ignored by the locator while an empty `MODELARIUM_JAR_URL` becomes the download URL |

## Left out

- HTTP download (`download`, scripts/fetch_jar.py:37-40): network I/O; modelled only as the `Download(url, dest)` effect, with no model of success, failure or the bytes written.
- SHA-256 (`sha256`, scripts/fetch_jar.py:29-34): a foreign hash library reading the file in 1 MiB chunks; modelled only as the `ReportDigest(path)` effect, the digest value is not computed.
- TOML parsing and reading `pyproject.toml` (scripts/fetch_jar.py:20-21): the `[tool.modelarium]` table is an input map; a missing `tool` or `modelarium` table is the empty map, as `.get(..., {})` makes it.
- FetchJar.LoadCfg: table values are modelled as strings; a TOML value of another type (a number, say) is formatted by the f-strings or breaks `str.replace` in the source, which the model does not capture.
- Filesystem effects: `mkdir` is the `MakeDirs` effect; `importlib.resources.files`/`iterdir` become the listing parameter; `Path.expanduser().resolve()` is the parameter `canon`, whose failures are only an opaque `None`.
- FetchJar.Main: `JARS_DIR / jar_name` is joined as text (`Names.Join`), not as pathlib joins paths: an artifact starting with "/" (which pathlib would let replace the directory), artifact or version values containing "/", and pathlib's collapsing of "//" and "/./" are not modelled.
- Output and exit: the `print` lines, `SystemExit` and the exit code, and the `ROOT`/`PYPROJECT`/`JARS_DIR` constants (the jars directory is a parameter).
- Non-empty coordinate fields: the code does not check that the three values are non-empty, so the model does not either; an empty value gives a URL with an empty segment.
- A missing `_jars` directory: `pkg.iterdir()` raises `FileNotFoundError` itself (modelarium/jvm.py:13); the model only sees a listing, so this case is the empty listing and gives `NoBundledJar` (same exception class, different message).
- Undecodable file names: entries whose names hold bytes that are not valid in the file-system encoding reach Python as lone surrogate code points, which Dafny's `char` cannot represent; such names are outside the model.
