/** ScanningClasspathModuleRegistry: the one-shot singleton, the shared class loader,
    and how findModuleMetas picks the jar files and directories to scan from the
    class path's META-INF resource URLs. */
module Scanning {
  import opened Wrappers
  import opened Metadata
  import Text

  /** A resource URL: its protocol and its file part. */
  datatype Url = Url(protocol: string, file: string)

  /** The file part of a jar URL with everything through the first ':' dropped,
      provided that colon is not the first character. */
  function AfterScheme(file: string): string {
    var colon := Text.IndexOf(file, ':');
    if colon > 0 then file[colon + 1..] else file
  }

  /** The text before the first '!', provided that is not the first character. */
  function BeforeEntry(file: string): string {
    var excl := Text.IndexOf(file, '!');
    if excl > 0 then file[..excl] else file
  }

  /** The jar file a jar URL points into. */
  function JarPath(file: string): string {
    BeforeEntry(AfterScheme(file))
  }

  /** The jar path is no longer than the file part. A '!' survives in it only when the
      text after the scheme starts with '!', and then nothing is cut at all. */
  lemma JarPathShape(file: string)
    ensures |JarPath(file)| <= |file|
    ensures '!' in JarPath(file) ==> JarPath(file) == AfterScheme(file) && AfterScheme(file)[0] == '!'
  {
    var s := AfterScheme(file);
    var excl := Text.IndexOf(s, '!');
    assert excl > 0 ==> '!' !in s[..excl];
  }

  /** The first c in s is at k when s[k] is c and no c comes before it. */
  lemma IndexOfAt(s: string, c: char, k: nat)
    requires k < |s| && s[k] == c && c !in s[..k]
    ensures Text.IndexOf(s, c) == k
  {
    assert s[..k + 1][k] == c;
  }

  /** The usual jar URL file part, scheme:path!entry, gives back the path, whatever
      the entry and whatever colons the path holds. */
  lemma JarPathOfJarUrl(scheme: string, path: string, entry: string)
    requires |scheme| > 0 && ':' !in scheme
    requires |path| > 0 && '!' !in path
    ensures JarPath(scheme + ":" + path + "!" + entry) == path
  {
    var file := scheme + ":" + path + "!" + entry;
    assert file[..|scheme|] == scheme && file[|scheme|] == ':';
    IndexOfAt(file, ':', |scheme|);
    var s := file[|scheme| + 1..];
    assert s == path + "!" + entry;
    assert s[..|path|] == path && s[|path|] == '!';
    IndexOfAt(s, '!', |path|);
    assert AfterScheme(file) == s;
  }

  /** A file part without a colon past its first character and without a '!' past its
      first character names the jar file itself. */
  lemma JarPathUnchanged(file: string)
    requires forall k :: 0 < k < |file| ==> file[k] != ':' && file[k] != '!'
    ensures JarPath(file) == file
  {
    var colon := Text.IndexOf(file, ':');
    assert colon <= 0;
    var excl := Text.IndexOf(file, '!');
    assert excl <= 0;
  }

  /** The jar files and directories found so far. */
  datatype Found = Found(jars: seq<string>, dirs: seq<string>)

  /** One URL of the loop, with `jarPath` the extraction above: a jar URL adds its jar, unless opening it fails with an
      IOException; a file URL adds its directory if it is one; other protocols are
      ignored. */
  function Visit(found: Found, url: Url, jarPath: string -> string, isDirectory: string -> bool, canOpen: string -> bool): Result<Found, string> {
    if url.protocol == "jar" then
      var path := jarPath(url.file);
      if canOpen(path) then Success(Found(found.jars + [path], found.dirs)) else Failure(path)
    else if url.protocol == "file" then
      if isDirectory(url.file) then Success(Found(found.jars, found.dirs + [url.file])) else Success(found)
    else Success(found)
  }

  /** The loop over the META-INF URLs, in order, continuing from `found`; a failure
      stops it. */
  function Collect(urls: seq<Url>, found: Found, jarPath: string -> string, isDirectory: string -> bool, canOpen: string -> bool): Result<Found, string>
    decreases |urls|
  {
    if urls == [] then Success(found)
    else match Visit(found, urls[0], jarPath, isDirectory, canOpen)
      case Failure(path) => Failure(path)
      case Success(next) => Collect(urls[1..], next, jarPath, isDirectory, canOpen)
  }

  /** The jar paths of the jar URLs, in order. */
  function JarPaths(urls: seq<Url>, jarPath: string -> string): seq<string>
    decreases |urls|
  {
    if urls == [] then []
    else (if urls[0].protocol == "jar" then [jarPath(urls[0].file)] else []) + JarPaths(urls[1..], jarPath)
  }

  /** The file URLs that name directories, in order. */
  function Directories(urls: seq<Url>, isDirectory: string -> bool): seq<string>
    decreases |urls|
  {
    if urls == [] then []
    else (if urls[0].protocol == "file" && isDirectory(urls[0].file) then [urls[0].file] else []) + Directories(urls[1..], isDirectory)
  }

  /** Some jar URL names a jar that cannot be opened. */
  predicate HasUnreadableJar(urls: seq<Url>, jarPath: string -> string, canOpen: string -> bool) {
    exists k :: 0 <= k < |urls| && urls[k].protocol == "jar" && !canOpen(jarPath(urls[k].file))
  }

  /** The URL loop fails exactly when some jar cannot be opened. */
  lemma {:induction false} CollectFails(urls: seq<Url>, found: Found, jarPath: string -> string, isDirectory: string -> bool, canOpen: string -> bool)
    ensures Collect(urls, found, jarPath, isDirectory, canOpen).Failure? <==> HasUnreadableJar(urls, jarPath, canOpen)
    decreases |urls|
  {
    if urls != [] {
      var rest := urls[1..];
      var u := urls[0];
      if u.protocol == "jar" && !canOpen(jarPath(u.file)) {
        assert HasUnreadableJar(urls, jarPath, canOpen);
      } else {
        var next := Visit(found, u, jarPath, isDirectory, canOpen).value;
        assert Collect(urls, found, jarPath, isDirectory, canOpen) == Collect(rest, next, jarPath, isDirectory, canOpen);
        CollectFails(rest, next, jarPath, isDirectory, canOpen);
        if HasUnreadableJar(rest, jarPath, canOpen) {
          var k :| 0 <= k < |rest| && rest[k].protocol == "jar" && !canOpen(jarPath(rest[k].file));
          assert urls[k + 1] == rest[k];
        }
        if HasUnreadableJar(urls, jarPath, canOpen) {
          var k :| 0 <= k < |urls| && urls[k].protocol == "jar" && !canOpen(jarPath(urls[k].file));
          assert k > 0 && rest[k - 1] == urls[k];
        }
      }
    }
  }

  /** A URL loop that succeeds adds the jar URLs' jar paths and the file URLs that are
      directories, each in URL order, and nothing else. */
  lemma {:induction false} CollectContents(urls: seq<Url>, found: Found, jarPath: string -> string, isDirectory: string -> bool, canOpen: string -> bool)
    ensures Collect(urls, found, jarPath, isDirectory, canOpen).Success? ==>
      Collect(urls, found, jarPath, isDirectory, canOpen).value
        == Found(found.jars + JarPaths(urls, jarPath), found.dirs + Directories(urls, isDirectory))
    decreases |urls|
  {
    if urls != [] && Visit(found, urls[0], jarPath, isDirectory, canOpen).Success? {
      var next := Visit(found, urls[0], jarPath, isDirectory, canOpen).value;
      CollectContents(urls[1..], next, jarPath, isDirectory, canOpen);
    }
  }

  /** A source the registry scans for module descriptors. */
  datatype Source = JarSource(path: string) | DirectorySource(path: string)

  /** Jars are scanned into the result before directories. */
  function ScanOrder(found: Found): (r: seq<Source>)
    ensures |r| == |found.jars| + |found.dirs|
    ensures forall k :: 0 <= k < |found.jars| ==> r[k] == JarSource(found.jars[k])
    ensures forall k :: 0 <= k < |found.dirs| ==> r[|found.jars| + k] == DirectorySource(found.dirs[k])
  {
    seq(|found.jars|, k requires 0 <= k < |found.jars| => JarSource(found.jars[k]))
    + seq(|found.dirs|, k requires 0 <= k < |found.dirs| => DirectorySource(found.dirs[k]))
  }

  /** findModuleMetas as far as it is modelled: the URL loop, then the sources in the
      order they are parsed. */
  method FindModuleMetas(urls: seq<Url>, isDirectory: string -> bool, canOpen: string -> bool) returns (r: Result<seq<Source>, string>)
    ensures r.Failure? <==> HasUnreadableJar(urls, JarPath, canOpen)
    ensures r.Success? ==> r.value == ScanOrder(Found(JarPaths(urls, JarPath), Directories(urls, isDirectory)))
  {
    var found := Found([], []);
    var i := 0;
    while i < |urls|
      invariant 0 <= i <= |urls|
      invariant Collect(urls, Found([], []), JarPath, isDirectory, canOpen) == Collect(urls[i..], found, JarPath, isDirectory, canOpen)
    {
      assert urls[i..][0] == urls[i] && urls[i..][1..] == urls[i + 1..];
      var next := VisitUrl(found, urls[i], isDirectory, canOpen);
      if next.Failure? {
        assert Collect(urls, Found([], []), JarPath, isDirectory, canOpen).Failure?;
        CollectFails(urls, Found([], []), JarPath, isDirectory, canOpen);
        return Failure(next.error);
      }
      found := next.value;
      i := i + 1;
    }
    assert urls[i..] == [];
    assert Collect(urls, Found([], []), JarPath, isDirectory, canOpen) == Success(found);
    CollectFails(urls, Found([], []), JarPath, isDirectory, canOpen);
    CollectContents(urls, Found([], []), JarPath, isDirectory, canOpen);
    return Success(ScanOrder(found));
  }

  /** The body of the URL loop: the protocol switch. */
  method VisitUrl(found: Found, metaInfoUrl: Url, isDirectory: string -> bool, canOpen: string -> bool) returns (r: Result<Found, string>)
    ensures r == Visit(found, metaInfoUrl, JarPath, isDirectory, canOpen)
  {
    if metaInfoUrl.protocol == "jar" {
      var jarFile := ExtractJarPath(metaInfoUrl.file);
      if !canOpen(jarFile) {
        return Failure(jarFile);
      }
      return Success(Found(found.jars + [jarFile], found.dirs));
    } else if metaInfoUrl.protocol == "file" {
      if isDirectory(metaInfoUrl.file) {
        return Success(Found(found.jars, found.dirs + [metaInfoUrl.file]));
      }
    }
    return Success(found);
  }

  /** The jar-path extraction of the loop body. */
  method ExtractJarPath(file: string) returns (jarFile: string)
    ensures jarFile == JarPath(file)
  {
    jarFile := file;
    var colon := Text.IndexOf(jarFile, ':');
    if colon > 0 {
      jarFile := jarFile[colon + 1..];
    }
    var excl := Text.IndexOf(jarFile, '!');
    if excl > 0 {
      jarFile := jarFile[..excl];
    }
  }

  // ---------------------------------------------------------------------------
  // The singleton and the class loader
  // ---------------------------------------------------------------------------

  /** A ScanningClasspathModuleRegistry, known by the sources it was built from. */
  datatype ScanningRegistry = ScanningRegistry(sources: seq<Source>)

  /** Why instantiate throws: IllegalStateException naming the existing singleton, or
      IOException for a jar that cannot be opened. */
  datatype InstantiateError = AlreadyInstantiated(existing: ScanningRegistry) | JarUnreadable(path: string)

  /** A class loader, known by identity. */
  datatype ClassLoader = ClassLoader(id: nat)

  /** The static singleton field. */
  class SingletonHolder {
    var singleton: Option<ScanningRegistry>

    constructor ()
      ensures singleton == None
    {
      singleton := None;
    }

    /** instantiate: refuses when a singleton exists; otherwise scans, and stores and
        returns the new registry unless scanning threw. */
    method Instantiate(urls: seq<Url>, isDirectory: string -> bool, canOpen: string -> bool) returns (r: Result<ScanningRegistry, InstantiateError>)
      modifies this
      ensures old(singleton).Some? ==> r == Failure(AlreadyInstantiated(old(singleton).value)) && singleton == old(singleton)
      ensures old(singleton).None? && r.Failure? ==> singleton == None && r.error.JarUnreadable?
      ensures old(singleton).None? && r.Success? ==> singleton == Some(r.value)
      ensures old(singleton).None? ==> (r.Success? <==> !HasUnreadableJar(urls, JarPath, canOpen))
      ensures r.Success? ==> r.value.sources == ScanOrder(Found(JarPaths(urls, JarPath), Directories(urls, isDirectory)))
    {
      if singleton.Some? {
        return Failure(AlreadyInstantiated(singleton.value));
      }
      var metas := FindModuleMetas(urls, isDirectory, canOpen);
      if metas.Failure? {
        return Failure(JarUnreadable(metas.error));
      }
      singleton := Some(ScanningRegistry(metas.value));
      return Success(singleton.value);
    }
  }

  /** createClassLoader: every module of this registry shares the parent loader. */
  function CreateClassLoader(mod: Module, parent: ClassLoader): (r: ClassLoader)
    ensures r == parent
  {
    parent
  }
}
