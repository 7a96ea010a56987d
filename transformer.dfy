/**
 * The transformer itself: the ancestor walk, first-match discovery, the
 * write-once cache of override files and the line it reports.
 */
module Transformer {
  import opened Results
  import opened Text
  import opened Paths
  import opened ComposeYaml
  import opened OverrideState

  const ComposeFileName := "docker-compose.yml"

  /** Where override files are cached, below the user's home directory. */
  function CacheDir(home: string): string
  {
    home + "/Library/Caches/FruitionMacDevShim"
  }

  /**
   * What the transformer needs from its surroundings but does not compute:
   * the HOME variable, the parsed docker-compose.yml of each directory that
   * holds one, the directory test, and the serializer, checksum and YAML
   * writer it hands values to.
   */
  datatype Host = Host(
    home: string,
    composeFiles: map<string, Descriptor>,
    isDir: string -> bool,
    serialize: Descriptor -> string,
    crc32: string -> nat,
    dump: Override -> string)

  /** The cache file for a base descriptor found in dir: keyed on the checksum of its serialization followed by dir. */
  function CacheFile(host: Host, base: Descriptor, dir: string): string
  {
    CacheDir(host.home) + "/" + NatToString(host.crc32(host.serialize(base) + dir)) + ".yml"
  }

  /** The line printed for the calling script: the base file, a colon, the override file. */
  function Report(dir: string, cachedFile: string): string
  {
    dir + "/" + ComposeFileName + ":" + cachedFile
  }

  /** The file system as the transformer sees it: file contents by path, and the set of directories. */
  datatype Store = Store(files: map<string, string>, dirs: set<string>)

  /** Whether a file or directory is present at path. */
  predicate Present(st: Store, path: string)
  {
    path in st.files || path in st.dirs
  }

  /**
   * One run of the transformer from the file-system state st: the result
   * (the report line or the error) and the state it leaves behind. The
   * override's relative sources are resolved against the directory the
   * base file was found in when atFoundDir holds, against pwd otherwise.
   */
  function RunResolving(pwd: string, host: Host, st: Store, atFoundDir: bool): (Result<string>, Store)
    requires IsAbsolute(pwd)
  {
    match Discover(pwd, host.composeFiles.Keys)
    case None => (Err(NotFound), st)
    case Some(dir) =>
      var base := host.composeFiles[dir];
      var cached := CacheFile(host, base, dir);
      if Present(st, cached) then (Ok(Report(dir, cached)), st)
      else
        var made := st.(dirs := st.dirs + {CacheDir(host.home)});
        match CreateOverride(if atFoundDir then dir else pwd, host.isDir, base)
        case Err(e) => (Err(e), made)
        case Ok(o) => (Ok(Report(dir, cached)), made.(files := made.files[cached := host.dump(o)]))
  }

  /**
   * The run as the transformer performs it: the override is built against
   * pwd, both for the directory test and for the NFS device.
   */
  function Run(pwd: string, host: Host, st: Store): (out: (Result<string>, Store))
    requires IsAbsolute(pwd)
    ensures st.files.Keys <= out.1.files.Keys && st.dirs <= out.1.dirs
    ensures forall p :: p in st.files ==> out.1.files[p] == st.files[p]
    ensures out.0 == Err(NotFound) <==> Discover(pwd, host.composeFiles.Keys).None?
    ensures out.1.dirs <= st.dirs + {CacheDir(host.home)}
    ensures out.0.Ok? ==>
              && Discover(pwd, host.composeFiles.Keys).Some?
              && var dir := Discover(pwd, host.composeFiles.Keys).value;
                 var cached := CacheFile(host, host.composeFiles[dir], dir);
                 out.0.value == Report(dir, cached) && Present(out.1, cached)
  {
    RunResolving(pwd, host, st, false)
  }

  /**
   * Write-once: when the cached override for the base file found in dir
   * already exists, a run changes nothing and reports it; otherwise it
   * creates the cache directory and touches no file but the cached one.
   */
  lemma RunWriteOnce(pwd: string, host: Host, st: Store, dir: string)
    requires IsAbsolute(pwd) && Discover(pwd, host.composeFiles.Keys) == Some(dir)
    ensures var cached := CacheFile(host, host.composeFiles[dir], dir);
            && (Present(st, cached) ==> Run(pwd, host, st) == (Ok(Report(dir, cached)), st))
            && (!Present(st, cached) ==> Run(pwd, host, st).1.dirs == st.dirs + {CacheDir(host.home)})
            && (forall p :: p in Run(pwd, host, st).1.files && p != cached ==> p in st.files)
  {
  }

  /**
   * A run that finds no cached override builds one: it fails exactly when
   * the base file has no version, and otherwise writes the dumped override
   * to the cache file.
   */
  lemma RunFresh(pwd: string, host: Host, st: Store, dir: string)
    requires IsAbsolute(pwd) && Discover(pwd, host.composeFiles.Keys) == Some(dir)
    requires !Present(st, CacheFile(host, host.composeFiles[dir], dir))
    ensures var base := host.composeFiles[dir]; var out := Run(pwd, host, st);
            && (out.0 == Err(MissingVersion) <==> IsEmptyVersion(base.version))
            && (out.0.Ok? ==> out.1.files == st.files[CacheFile(host, base, dir) := host.dump(CreateOverride(pwd, host.isDir, base).value)])
            && (out.0.Err? ==> out.1.files == st.files)
  {
  }

  /** Running the transformer twice leaves the same state and reports the same as running it once. */
  lemma RunIdempotent(pwd: string, host: Host, st: Store)
    requires IsAbsolute(pwd)
    ensures Run(pwd, host, Run(pwd, host, st).1) == Run(pwd, host, st)
  {
  }

  /** A relative path such as "src": not empty, not absolute, and free of ':' and newlines. */
  predicate PlainRelative(p: string)
  {
    p != [] && p[0] != '/' && ':' !in p && '\n' !in p
  }

  /** A base file whose one service bind-mounts ./p. */
  function ExampleBase(p: string): Descriptor
  {
    Descriptor(Some("3"), [ServiceDef("web", [ShortSyntax("./" + p + ":/app")])])
  }

  /** The device of volume nfs0, or "" when there is none. */
  function Nfs0Device(o: Override): string
  {
    if VolumeName(0) in o.volumes then o.volumes[VolumeName(0)].device else ""
  }

  /** A host where dir holds ExampleBase(p), every path is a directory, and a dump keeps nfs0's device. */
  function ExampleHost(dir: string, p: string): Host
  {
    Host("/h", map[dir := ExampleBase(p)], q => true, b => "", t => 0, Nfs0Device)
  }

  /** The example's spec parses as a bind mount of ./p onto /app. */
  lemma ExampleSpec(p: string)
    requires PlainRelative(p)
    ensures ParseBindMount("./" + p + ":/app") == Some(Binding("./" + p, "/app"))
  {
    var source := "./" + p;
    assert ':' !in source && '\n' !in source by {
      assert forall i :: 2 <= i < |source| ==> source[i] == p[i - 2];
    }
    ParseBindMountFormat(source, "/app", false);
    assert source + ":" + "/app" + "" == source + ":/app";
  }

  /** The example's one service yields one mount, of ./p, when ./p is a directory. */
  lemma ExampleMounts(root: string, isDir: string -> bool, p: string)
    requires PlainRelative(p) && isDir(root + "/" + ("./" + p))
    ensures Mounts(root, isDir, ExampleBase(p).services) == [Mount("web", "./" + p, "/app")]
  {
    var m := Mount("web", "./" + p, "/app");
    var e := ShortSyntax("./" + p + ":/app");
    assert Eligible(root, isDir, "web", e) == Some(m) by {
      ExampleSpec(p);
    }
    assert ServiceMounts(root, isDir, "web", [e]) == [m] by {
      assert [e][..0] == [];
    }
    var services := [ServiceDef("web", [e])];
    assert services == ExampleBase(p).services;
    assert services[..0] == [];
  }

  /** One mount has one distinct source. */
  lemma SingleSource(m: Mount)
    ensures Distinct(Sources([m])) == [m.source]
  {
    assert Sources([m]) == [m.source] by { assert [m][..0] == []; }
    var xs := [m.source];
    assert xs[..0] == [];
    assert Distinct(xs[..0]) == [];
  }

  /** A single source is named nfs0. */
  lemma DefinitionsOne(root: string, source: string)
    ensures Definitions(root, [source]) == map[VolumeName(0) := NfsVolumeDefinition(root, source)]
  {
    assert [source][..0] == [];
  }

  /** The example's override declares one volume, nfs0, for ./p. */
  lemma ExampleVolumes(root: string, isDir: string -> bool, p: string)
    requires PlainRelative(p) && isDir(root + "/" + ("./" + p))
    ensures CreateOverride(root, isDir, ExampleBase(p)).Ok?
    ensures CreateOverride(root, isDir, ExampleBase(p)).value.volumes == map[VolumeName(0) := NfsVolumeDefinition(root, "./" + p)]
  {
    var m := Mount("web", "./" + p, "/app");
    var ms := Mounts(root, isDir, ExampleBase(p).services);
    assert ms == [m] by { ExampleMounts(root, isDir, p); }
    assert CreateOverride(root, isDir, ExampleBase(p)).value.volumes == Definitions(root, Distinct(Sources(ms)));
    SingleSource(m);
    DefinitionsOne(root, m.source);
  }

  /** The example's override mounts p below the directory it is built against. */
  lemma ExampleOverride(root: string, isDir: string -> bool, p: string)
    requires PlainRelative(p) && isDir(root + "/" + ("./" + p))
    ensures CreateOverride(root, isDir, ExampleBase(p)).Ok?
    ensures Nfs0Device(CreateOverride(root, isDir, ExampleBase(p)).value) == ":" + root + "/" + p
  {
    ExampleVolumes(root, isDir, p);
    NfsDeviceOfRelative(root, p);
  }

  /** Two devices for the same path below different directories differ. */
  lemma DevicesDiffer(dir: string, pwd: string, p: string)
    requires dir != pwd
    ensures ":" + dir + "/" + p != ":" + pwd + "/" + p
  {
    var x, y := ":" + dir + "/" + p, ":" + pwd + "/" + p;
    if |dir| == |pwd| {
      assert x[1..|dir| + 1] == dir && y[1..|pwd| + 1] == pwd;
    } else {
      assert |x| != |y|;
    }
  }

  /** The project's own directory is the first one the walk from it tries. */
  lemma DiscoverSelf(dir: string)
    requires IsAbsolute(dir)
    ensures Discover(dir, {dir}) == Some(dir)
  {
    AncestorsEnds(dir);
  }

  /**
   * The cache key leaves out pwd, but the override depends on it. Let dir
   * hold a base file whose service bind-mounts ./p, and let pwd lie below
   * dir. A run from dir writes an override mounting dir/p; a later run from
   * pwd reports that same file unchanged, where a build from pwd would
   * have mounted pwd/p.
   */
  lemma CacheIgnoresWorkingDirectory(dir: string, pwd: string, p: string)
    requires IsAbsolute(dir) && IsAbsolute(pwd) && dir != pwd && Discover(pwd, {dir}) == Some(dir)
    requires PlainRelative(p)
    ensures var host := ExampleHost(dir, p);
            var cached := CacheFile(host, ExampleBase(p), dir);
            var first := Run(dir, host, Store(map[], {}));
            var built := Run(pwd, host, Store(map[], {}));
            && cached in first.1.files && first.1.files[cached] == ":" + dir + "/" + p
            && Run(pwd, host, first.1) == (Ok(Report(dir, cached)), first.1)
            && cached in built.1.files && built.1.files[cached] == ":" + pwd + "/" + p
            && first.1.files[cached] != built.1.files[cached]
  {
    var host := ExampleHost(dir, p);
    assert host.composeFiles.Keys == {dir};
    DiscoverSelf(dir);
    assert host.isDir(dir + "/" + ("./" + p)) && host.isDir(pwd + "/" + ("./" + p));
    ExampleOverride(dir, host.isDir, p);
    ExampleOverride(pwd, host.isDir, p);
    DevicesDiffer(dir, pwd, p);
  }

  /**
   * The run with the override built against the directory of the base
   * file, which the cache key names, instead of pwd.
   */
  function RunRooted(pwd: string, host: Host, st: Store): (out: (Result<string>, Store))
    requires IsAbsolute(pwd)
    ensures out.0.Ok? ==>
              && Discover(pwd, host.composeFiles.Keys).Some?
              && var dir := Discover(pwd, host.composeFiles.Keys).value;
                 out.0.value == Report(dir, CacheFile(host, host.composeFiles[dir], dir))
  {
    RunResolving(pwd, host, st, true)
  }

  /** Run from the project's own directory, both runs are the same. */
  lemma RunRootedAtProject(pwd: string, host: Host, st: Store)
    requires IsAbsolute(pwd) && Discover(pwd, host.composeFiles.Keys) == Some(pwd)
    ensures RunRooted(pwd, host, st) == Run(pwd, host, st)
  {
  }

  /** The corrected run depends on pwd only through the directory it discovers. */
  lemma RunRootedByProject(pwd1: string, pwd2: string, host: Host, st: Store)
    requires IsAbsolute(pwd1) && IsAbsolute(pwd2)
    requires Discover(pwd1, host.composeFiles.Keys) == Discover(pwd2, host.composeFiles.Keys)
    ensures RunRooted(pwd1, host, st) == RunRooted(pwd2, host, st)
  {
    assert RunRooted(pwd1, host, st) == RunResolving(pwd1, host, st, true);
    assert RunRooted(pwd2, host, st) == RunResolving(pwd2, host, st, true);
  }

  /** No two base files the host knows share a cache file. */
  predicate CacheKeysDistinct(host: Host)
  {
    forall d1, d2 ::
      d1 in host.composeFiles && d2 in host.composeFiles
      && CacheFile(host, host.composeFiles[d1], d1) == CacheFile(host, host.composeFiles[d2], d2)
      ==> d1 == d2
  }

  /**
   * Every cache file present holds the dump of the override built for its
   * base file against that file's directory, and none is a directory.
   */
  predicate CacheHolds(host: Host, st: Store)
  {
    forall d :: d in host.composeFiles ==>
      && CacheFile(host, host.composeFiles[d], d) !in st.dirs
      && (CacheFile(host, host.composeFiles[d], d) in st.files
          ==> && CreateOverride(d, host.isDir, host.composeFiles[d]).Ok?
              && st.files[CacheFile(host, host.composeFiles[d], d)] == host.dump(CreateOverride(d, host.isDir, host.composeFiles[d]).value))
  }

  /** A cache file is longer than, so never the same path as, the cache directory. */
  lemma CacheFileNotCacheDir(host: Host, base: Descriptor, dir: string)
    ensures CacheFile(host, base, dir) != CacheDir(host.home)
  {
    assert |CacheFile(host, base, dir)| > |CacheDir(host.home)|;
  }

  /**
   * With the override built against the base file's directory, the cache
   * is sound: from any working directory, every run keeps each cache file
   * equal to the dump of a fresh build, and a successful run reports a
   * file holding exactly that.
   */
  lemma RunRootedCacheSound(pwd: string, host: Host, st: Store)
    requires IsAbsolute(pwd) && CacheKeysDistinct(host) && CacheHolds(host, st)
    ensures CacheHolds(host, RunRooted(pwd, host, st).1)
    ensures RunRooted(pwd, host, st).0.Ok? ==>
              var dir := Discover(pwd, host.composeFiles.Keys).value;
              var cached := CacheFile(host, host.composeFiles[dir], dir);
              && cached in RunRooted(pwd, host, st).1.files
              && RunRooted(pwd, host, st).1.files[cached] == host.dump(CreateOverride(dir, host.isDir, host.composeFiles[dir]).value)
  {
    var out := RunRooted(pwd, host, st);
    match Discover(pwd, host.composeFiles.Keys) {
      case None =>
      case Some(dir) =>
        var base := host.composeFiles[dir];
        var cached := CacheFile(host, base, dir);
        if !Present(st, cached) {
          CacheFileNotCacheDir(host, base, dir);
          forall d | d in host.composeFiles
            ensures CacheFile(host, host.composeFiles[d], d) !in out.1.dirs
            ensures CacheFile(host, host.composeFiles[d], d) in out.1.files
                    ==> && CreateOverride(d, host.isDir, host.composeFiles[d]).Ok?
                        && out.1.files[CacheFile(host, host.composeFiles[d], d)] == host.dump(CreateOverride(d, host.isDir, host.composeFiles[d]).value)
          {
            CacheFileNotCacheDir(host, host.composeFiles[d], d);
            if CacheFile(host, host.composeFiles[d], d) == cached {
              assert d == dir;
            }
          }
        }
    }
  }

  /** The file system the transformer reads and writes. */
  class FileStore {
    var files: map<string, string>
    var dirs: set<string>

    constructor(files0: map<string, string>, dirs0: set<string>)
      ensures files == files0 && dirs == dirs0
    {
      files := files0;
      dirs := dirs0;
    }

    function State(): Store
      reads this
    {
      Store(files, dirs)
    }

    /** Whether a file or directory is present at path. */
    predicate Exists(path: string)
      reads this
    {
      Present(State(), path)
    }

    /** Create dir (a directory that already exists is left as it is). */
    method Mkdir(dir: string)
      modifies this
      ensures dirs == old(dirs) + {dir} && files == old(files)
    {
      dirs := dirs + {dir};
    }

    /** Write content to path, replacing whatever was there. */
    method DumpFile(path: string, content: string)
      modifies this
      ensures files == old(files)[path := content] && dirs == old(dirs)
    {
      files := files[path := content];
    }
  }

  class ComposeEnvironmentTransformer {
    /** The working directory of the calling script. */
    const pwd: string
    const fileSystem: FileStore

    constructor(pwd0: string, fileSystem0: FileStore)
      ensures pwd == pwd0 && fileSystem == fileSystem0
    {
      pwd := pwd0;
      fileSystem := fileSystem0;
    }

    /** Walk from pwd up to "/", collecting each directory on the way. */
    method BuildTree() returns (tree: seq<string>)
      requires IsAbsolute(pwd)
      ensures tree == Ancestors(pwd)
    {
      var dir := pwd;
      tree := [dir];
      var more := true;
      while more
        invariant more ==> IsAbsolute(dir) && tree + Ancestors(dir)[1..] == Ancestors(pwd)
        invariant !more ==> tree == Ancestors(pwd)
        decreases if more then |dir| + 1 else 0
      {
        var up := Dirname(dir);
        AncestorsStep(dir);
        ghost var rest := Ancestors(dir)[1..];
        ghost var walked := tree;
        tree := tree + [up];
        if up != "/" {
          ConcatAssoc(walked, [up], Ancestors(up)[1..]);
          dir := up;
        } else {
          more := false;
        }
      }
    }

    /** The first directory of tree that holds docker-compose.yml, if any. */
    method Locate(tree: seq<string>, has: set<string>) returns (found: Option<string>)
      ensures found == match Nearest(tree, has) case None => None case Some(i) => Some(tree[i])
    {
      found := None;
      var i := 0;
      while i < |tree|
        invariant 0 <= i <= |tree|
        invariant forall j :: 0 <= j < i ==> tree[j] !in has
      {
        if tree[i] in has {
          found := Some(tree[i]);
          return;
        }
        i := i + 1;
      }
    }

    /**
     * Build the override for a base descriptor: refuse a base without a
     * version, then turn every eligible bind mount into a named NFS volume
     * (one per distinct source, named in order of first encounter) and a
     * rewritten volume line under its service.
     */
    method CreateOverrideYaml(base: Descriptor, isDir: string -> bool) returns (r: Result<Override>)
      ensures r == CreateOverride(pwd, isDir, base)
    {
      if IsEmptyVersion(base.version) {
        return Err(MissingVersion);
      }
      var sourcePathMap: map<string, string> := map[];
      var volumes: map<string, VolumeDefinition> := map[];
      var services: map<string, ServiceOverride> := map[];
      ghost var done: seq<Mount> := [];
      var i := 0;
      while i < |base.services|
        invariant 0 <= i <= |base.services|
        invariant done == Mounts(pwd, isDir, base.services[..i])
        invariant BuildState(sourcePathMap, volumes, services) == Replay(pwd, done)
      {
        var service := base.services[i];
        sourcePathMap, volumes, services := AddServiceVolumes(service, isDir, done, sourcePathMap, volumes, services);
        MountsSnoc(pwd, isDir, base.services, i);
        done := done + ServiceMounts(pwd, isDir, service.name, service.volumes);
        i := i + 1;
      }
      assert base.services[..|base.services|] == base.services;
      ReplayMatchesExpected(base.version.value, pwd, done);
      r := Ok(Override(base.version.value, volumes, services));
    }

    /**
     * The inner loop of the override builder, over the volume entries of
     * one service: only short-syntax entries whose source starts with '.'
     * and is a directory under pwd are mounted.
     */
    method AddServiceVolumes(service: ServiceDef, isDir: string -> bool, ghost done: seq<Mount>,
                             sourcePathMap0: map<string, string>, volumes0: map<string, VolumeDefinition>,
                             services0: map<string, ServiceOverride>)
      returns (sourcePathMap: map<string, string>, volumes: map<string, VolumeDefinition>,
               services: map<string, ServiceOverride>)
      requires BuildState(sourcePathMap0, volumes0, services0) == Replay(pwd, done)
      ensures BuildState(sourcePathMap, volumes, services)
           == Replay(pwd, done + ServiceMounts(pwd, isDir, service.name, service.volumes))
    {
      sourcePathMap, volumes, services := sourcePathMap0, volumes0, services0;
      ghost var seen: seq<Mount> := [];
      assert done + seen == done;
      var j := 0;
      while j < |service.volumes|
        invariant 0 <= j <= |service.volumes|
        invariant seen == ServiceMounts(pwd, isDir, service.name, service.volumes[..j])
        invariant BuildState(sourcePathMap, volumes, services) == Replay(pwd, done + seen)
      {
        ServiceMountsSnoc(pwd, isDir, service.name, service.volumes, j);
        match service.volumes[j] {
          case OtherSyntax =>
            assert Eligible(pwd, isDir, service.name, service.volumes[j]) == None;
          case ShortSyntax(spec) =>
            var bindMounted := ParseBindMount(spec);
            if bindMounted.Some? && isDir(pwd + "/" + bindMounted.value.source) {
              ghost var m := Mount(service.name, bindMounted.value.source, bindMounted.value.destWithOptions);
              assert Eligible(pwd, isDir, service.name, service.volumes[j]) == Some(m);
              sourcePathMap, volumes, services := AddMount(service.name, bindMounted.value.source,
                bindMounted.value.destWithOptions, sourcePathMap, volumes, services);
              ReplaySnoc(pwd, done + seen, m);
              ConcatAssoc(done, seen, [m]);
              seen := seen + [m];
            } else {
              assert Eligible(pwd, isDir, service.name, service.volumes[j]) == None;
            }
        }
        j := j + 1;
      }
      assert service.volumes[..|service.volumes|] == service.volumes;
    }

    /**
     * One eligible bind mount: name its source "nfs<k>" and declare its NFS
     * volume the first time the source is seen, then add
     * "<name>:<destination>" under the service and set its HOST_OS.
     */
    method AddMount(serviceName: string, source: string, destWithOptions: string,
                    sourcePathMap0: map<string, string>, volumes0: map<string, VolumeDefinition>,
                    services0: map<string, ServiceOverride>)
      returns (sourcePathMap: map<string, string>, volumes: map<string, VolumeDefinition>,
               services: map<string, ServiceOverride>)
      ensures BuildState(sourcePathMap, volumes, services)
           == AddMountStep(pwd, BuildState(sourcePathMap0, volumes0, services0), Mount(serviceName, source, destWithOptions))
    {
      sourcePathMap, volumes, services := sourcePathMap0, volumes0, services0;
      // Names are "nfs<k>", never empty, so PHP's empty() test is a key test.
      if source !in sourcePathMap {
        var name := VolumeName(|sourcePathMap|);
        volumes := volumes[name := NfsVolumeDefinition(pwd, source)];
        sourcePathMap := sourcePathMap[source := name];
      }
      var prev := if serviceName in services then services[serviceName].volumes else [];
      services := services[serviceName := ServiceOverride(prev + [sourcePathMap[source] + ":" + destWithOptions], HostOsValue)];
    }

    /**
     * Find the nearest docker-compose.yml, and unless its cached override
     * already exists, create the cache directory and write the override
     * there; report the base file and the override file.
     */
    method Transform(host: Host) returns (r: Result<string>)
      requires IsAbsolute(pwd)
      modifies fileSystem
      ensures (r, fileSystem.State()) == Run(pwd, host, old(fileSystem.State()))
    {
      var tree := BuildTree();
      var found := Locate(tree, host.composeFiles.Keys);
      if found.None? {
        return Err(NotFound);
      }
      var dir := found.value;
      var base := host.composeFiles[dir];
      var cacheDir := CacheDir(host.home);
      var cachedFile := cacheDir + "/" + NatToString(host.crc32(host.serialize(base) + dir)) + ".yml";
      if !fileSystem.Exists(cachedFile) {
        fileSystem.Mkdir(cacheDir);
        var overrideYaml := CreateOverrideYaml(base, host.isDir);
        if overrideYaml.Err? {
          return Err(overrideYaml.error);
        }
        fileSystem.DumpFile(cachedFile, host.dump(overrideYaml.value));
      }
      r := Ok(Report(dir, cachedFile));
    }
  }
}
