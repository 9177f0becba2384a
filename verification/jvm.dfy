/**
  The runtime JAR locator of `modelarium/jvm.py`.

  The bundle directory `modelarium/_jars` is given as its path `pkgDir`
  and the names of its entries in listing order; the process environment
  is a map; `Path(p).expanduser().resolve()` is the parameter `canon`,
  which gives the canonical path or `None` when expansion or resolution
  raises (an unknown `~user`, say).
 */
module Jvm {
  import opened Wrappers
  import opened Names

  /**
    The errors of `get_jar_path`: `bundled_jar_path`'s `FileNotFoundError`,
    and whatever `expanduser()`/`resolve()` raise on the override.
   */
  datatype LocateError = NoBundledJar | UnresolvableOverride(path: string)

  const JarSuffix: string := ".jar"
  const JarOverrideVar: string := "MODELARIUM_JAR"

  predicate IsJar(name: string) {
    EndsWith(name, JarSuffix)
  }

  /** The list comprehension keeping the entries whose name ends in ".jar". */
  function Candidates(entries: seq<string>): (jars: seq<string>)
    ensures forall n :: n in jars <==> n in entries && IsJar(n)
    ensures |jars| <= |entries|
  {
    if entries == [] then []
    else (if IsJar(entries[0]) then [entries[0]] else []) + Candidates(entries[1..])
  }

  /** The comprehension keeps listing order: it distributes over concatenation. */
  lemma {:induction false} CandidatesAppend(a: seq<string>, b: seq<string>)
    ensures Candidates(a + b) == Candidates(a) + Candidates(b)
    decreases |a|
  {
    if a == [] {
      assert a + b == b;
    } else {
      assert (a + b)[1..] == a[1..] + b;
      CandidatesAppend(a[1..], b);
    }
  }

  /** A one-entry listing keeps its entry exactly when it is a JAR. */
  lemma CandidatesSingle(e: string)
    ensures Candidates([e]) == if IsJar(e) then [e] else []
  {
    assert [e][1..] == [];
  }

  /** Every element of `s` is at most every later element. */
  ghost predicate SortedByName(s: seq<string>) {
    forall i, j :: 0 <= i < j < |s| ==> LexLe(s[i], s[j])
  }

  /** Inserts `x` before the first element it is at most. */
  function Insert(x: string, s: seq<string>): (r: seq<string>)
    requires SortedByName(s)
    ensures SortedByName(r)
    ensures multiset(r) == multiset(s) + multiset{x}
    decreases |s|
  {
    if s == [] then [x]
    else if LexLe(x, s[0]) then
      var r := [x] + s;
      assert SortedByName(r) by {
        forall j | 1 <= j < |r| ensures LexLe(x, r[j]) {
          if j > 1 { LexLeTransitive(x, s[0], r[j]); } else { LexLeReflexive(x); }
        }
      }
      r
    else
      var rest := Insert(x, s[1..]);
      var r := [s[0]] + rest;
      assert s == [s[0]] + s[1..];
      assert SortedByName(r) by {
        LexLeTotal(x, s[0]);
        forall j | 1 <= j < |r| ensures LexLe(s[0], r[j]) {
          assert r[j] in multiset(rest);
          if r[j] != x {
            assert r[j] in s[1..];
          }
        }
      }
      r
  }

  /** `sorted(names)`: a sorted permutation of its argument. */
  function SortByName(names: seq<string>): (r: seq<string>)
    ensures SortedByName(r)
    ensures multiset(r) == multiset(names)
    decreases |names|
  {
    if names == [] then []
    else
      assert names == [names[0]] + names[1..];
      Insert(names[0], SortByName(names[1..]))
  }

  /**
    The name `sorted(jars, key=name)[-1]` picks: the one that sorts last,
    which is at least every candidate.
   */
  function LastByName(jars: seq<string>): (m: string)
    requires jars != []
    ensures m in jars
    ensures forall n :: n in jars ==> LexLe(n, m)
  {
    var s := SortByName(jars);
    assert |s| == |multiset(jars)| > 0;
    var m := s[|s| - 1];
    assert m in multiset(jars);
    assert forall n :: n in jars ==> LexLe(n, m) by {
      forall n | n in jars ensures LexLe(n, m) {
        assert n in multiset(s);
        var i :| 0 <= i < |s| && s[i] == n;
        if i < |s| - 1 { } else { LexLeReflexive(n); }
      }
    }
    m
  }

  /** The name of the JAR `bundled_jar_path` selects, or its error. */
  function SelectJar(entries: seq<string>): (r: Result<string, LocateError>)
    ensures r.Failure? <==> forall n :: n in entries ==> !IsJar(n)
    ensures r.Success? ==> r.value in entries && IsJar(r.value)
    ensures r.Success? ==> forall n :: n in entries && IsJar(n) ==> LexLe(n, r.value)
  {
    var jars := Candidates(entries);
    if jars == [] then Failure(NoBundledJar)
    else Success(LastByName(jars))
  }

  /** `bundled_jar_path()`: the selected entry inside the bundle directory. */
  function BundledJarPath(pkgDir: string, entries: seq<string>): (r: Result<string, LocateError>)
    ensures r.Failure? <==> forall n :: n in entries ==> !IsJar(n)
    ensures r.Success? ==> exists n :: n in entries && IsJar(n) && r.value == Join(pkgDir, n)
    ensures r.Success? ==> SelectJar(entries).Success? && r.value == Join(pkgDir, SelectJar(entries).value)
    ensures r.Failure? ==> r.error == NoBundledJar
  {
    match SelectJar(entries)
    case Failure(e) => Failure(e)
    case Success(name) => Success(Join(pkgDir, name))
  }

  /** The value of `override` in a truthy test: present and not empty. */
  predicate OverrideSet(env: map<string, string>) {
    JarOverrideVar in env && env[JarOverrideVar] != ""
  }

  /** `get_jar_path()` */
  function GetJarPath(env: map<string, string>, canon: string -> Option<string>,
                      pkgDir: string, entries: seq<string>): (r: Result<string, LocateError>)
    ensures r == Failure(NoBundledJar) <==> !OverrideSet(env) && forall n :: n in entries ==> !IsJar(n)
    ensures r.Failure? && r.error.UnresolvableOverride? <==> OverrideSet(env) && canon(env[JarOverrideVar]).None?
  {
    if OverrideSet(env) then
      match canon(env[JarOverrideVar])
      case Some(p) => Success(p)
      case None => Failure(UnresolvableOverride(env[JarOverrideVar]))
    else BundledJarPath(pkgDir, entries)
  }

  /** Exactly one candidate: it is the one returned. */
  lemma SelectSingleCandidate(entries: seq<string>, jar: string)
    requires Candidates(entries) == [jar]
    ensures SelectJar(entries) == Success(jar)
  {
    assert jar in Candidates(entries);
  }

  /**
    The selection is the unique greatest candidate, so it depends only on
    which names the directory holds, not on their order or repetition.
   */
  lemma SelectDependsOnlyOnNames(a: seq<string>, b: seq<string>)
    requires forall n :: n in a <==> n in b
    ensures SelectJar(a) == SelectJar(b)
  {
    var ra, rb := SelectJar(a), SelectJar(b);
    if ra.Success? {
      assert rb.Success?;
      LexLeAntisymmetric(ra.value, rb.value);
    }
  }

  /** Any permutation of the listing gives the same path or the same error. */
  lemma BundledPermutationInvariant(pkgDir: string, a: seq<string>, b: seq<string>)
    requires multiset(a) == multiset(b)
    ensures BundledJarPath(pkgDir, a) == BundledJarPath(pkgDir, b)
  {
    forall n ensures n in a <==> n in b {
      assert n in a <==> n in multiset(a);
      assert n in b <==> n in multiset(b);
    }
    SelectDependsOnlyOnNames(a, b);
  }

  /**
    The order is on names, not versions: of `<stem>10.jar` and `<stem>2.jar`
    the second is selected, because '2' sorts after '1'.
   */
  lemma SelectIsNotVersionAware(stem: string)
    ensures SelectJar([stem + "10.jar", stem + "2.jar"]) == Success(stem + "2.jar")
  {
    var v10, v2 := stem + "10.jar", stem + "2.jar";
    assert v10[|v10| - 4..] == ".jar" && v2[|v2| - 4..] == ".jar";
    var r := SelectJar([v10, v2]);
    assert r.value == v10 || r.value == v2;
    LexLeCommonPrefix(stem, "2.jar", "10.jar");
    assert !LexLe("2.jar", "10.jar");
  }

  /** A non-empty override wins and the bundle directory is never consulted. */
  lemma OverrideIgnoresBundle(env: map<string, string>, canon: string -> Option<string>,
                              dir1: string, entries1: seq<string>,
                              dir2: string, entries2: seq<string>)
    requires OverrideSet(env)
    ensures GetJarPath(env, canon, dir1, entries1) == GetJarPath(env, canon, dir2, entries2)
    ensures canon(env[JarOverrideVar]).Some? ==>
              GetJarPath(env, canon, dir1, entries1) == Success(canon(env[JarOverrideVar]).value)
    ensures canon(env[JarOverrideVar]).None? ==>
              GetJarPath(env, canon, dir1, entries1) == Failure(UnresolvableOverride(env[JarOverrideVar]))
  {
  }

  /** An absent or empty override falls back to the bundle, error included. */
  lemma NoOverrideFallsBack(env: map<string, string>, canon: string -> Option<string>,
                            pkgDir: string, entries: seq<string>)
    requires JarOverrideVar !in env || env[JarOverrideVar] == ""
    ensures GetJarPath(env, canon, pkgDir, entries) == BundledJarPath(pkgDir, entries)
  {
  }
}
