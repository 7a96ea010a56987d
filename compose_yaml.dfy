/**
 * The parsed docker-compose.yml tree, the override tree derived from it, and
 * a declarative description of that override: which volume specs qualify,
 * how distinct sources are named, and what each service's rewritten list is.
 */
module ComposeYaml {
  import opened Results
  import opened Text

  /** One entry of a service's `volumes` list. */
  datatype VolumeEntry =
    | ShortSyntax(spec: string)  // a string entry, "source:dest[:options]"
    | OtherSyntax                // any entry that is not a string (long-syntax mapping, number, null)

  /** A service: its key under `services` and its `volumes` list (absent or null read as empty). */
  datatype ServiceDef = ServiceDef(name: string, volumes: seq<VolumeEntry>)

  /** The parsed base file: its `version` scalar (if any) and its `services` in file order. */
  datatype Descriptor = Descriptor(version: Option<string>, services: seq<ServiceDef>)

  /** The two groups the bind-mount pattern captures. */
  datatype Binding = Binding(source: string, destWithOptions: string)

  /** A named volume definition: `driver` and `driver_opts` `type`, `o` and `device`. */
  datatype VolumeDefinition = VolumeDefinition(driver: string, driverType: string, options: string, device: string)

  /**
   * What the override says about one service: its `volumes` list and the
   * one `environment` entry the override ever sets, HOST_OS.
   */
  datatype ServiceOverride = ServiceOverride(volumes: seq<string>, hostOs: string)

  /** The override file: `version`, top-level `volumes` and `services`; an empty map stands for an absent key. */
  datatype Override = Override(version: string, volumes: map<string, VolumeDefinition>, services: map<string, ServiceOverride>)

  const NfsDriver := "local"
  const NfsType := "nfs"
  const NfsMountOptions := "addr=host.docker.internal,rw,nolock,hard,nointr,nfsvers=3"
  const HostOsValue := "Darwin"

  /** PHP empty() on the `version` value: absent, "" or "0". */
  predicate IsEmptyVersion(v: Option<string>)
  {
    v.None? || v.value == "" || v.value == "0"
  }

  /** The text a PCRE `$` lets the pattern span: s without one final newline. */
  function ChopFinalNewline(s: string): string
  {
    if s != [] && s[|s| - 1] == '\n' then s[..|s| - 1] else s
  }

  /**
   * The match of /(^\..*):(.*)$/U against a volume spec. Ungreedy, the first
   * group stops at the first colon; `.` never matches a newline, and `$` also
   * matches before a final newline.
   */
  function ParseBindMount(spec: string): (r: Option<Binding>)
    ensures r.Some? <==>
              |spec| > 0 && spec[0] == '.' && ':' in ChopFinalNewline(spec) && '\n' !in ChopFinalNewline(spec)
    ensures r.Some? ==>
              ChopFinalNewline(spec) == r.value.source + ":" + r.value.destWithOptions
              && |r.value.source| > 0 && r.value.source[0] == '.' && ':' !in r.value.source
  {
    if spec == [] || spec[0] != '.' then None
    else
      var line := ChopFinalNewline(spec);
      if '\n' in line then None
      else match FirstIndex(line, ':')
        case None => None
        case Some(c) =>
          assert line == line[..c] + ":" + line[c + 1..];
          Some(Binding(line[..c], line[c + 1..]))
  }

  /**
   * Composing a spec from a relative source and a destination (with any
   * options, colons included) and matching it gives both parts back.
   */
  lemma ParseBindMountFormat(source: string, dest: string, finalNewline: bool)
    requires |source| > 0 && source[0] == '.' && ':' !in source && '\n' !in source
    requires '\n' !in dest
    ensures ParseBindMount(source + ":" + dest + (if finalNewline then "\n" else "")) == Some(Binding(source, dest))
  {
    var line := source + ":" + dest;
    var spec := line + (if finalNewline then "\n" else "");
    assert ChopFinalNewline(spec) == line by {
      if finalNewline {
        assert spec[..|spec| - 1] == line;
      } else {
        assert line[|line| - 1] != '\n' by {
          if dest == [] { assert line[|line| - 1] == ':'; } else { assert line[|line| - 1] == dest[|dest| - 1]; }
        }
      }
    }
    assert spec[0] == '.';
    assert '\n' !in line by {
      forall i | 0 <= i < |line| ensures line[i] != '\n' {
        if i < |source| { assert line[i] == source[i]; }
        else if i > |source| { assert line[i] == dest[i - |source| - 1]; }
      }
    }
    var c := FirstIndex(line, ':');
    assert line[|source|] == ':';
    assert c == Some(|source|);
    assert line[..|source|] == source;
    assert line[|source| + 1..] == dest;
  }

  /**
   * The local part of the NFS device: PHP ltrim of every leading '.', then
   * of every leading '/', prefixed with '/' when anything is left.
   */
  function LocalPath(source: string): (local: string)
    ensures local == [] || (|local| >= 2 && local[0] == '/' && local[1] != '/')
  {
    var rest := TrimLeft(TrimLeft(source, '.'), '/');
    if |rest| > 0 then "/" + rest else rest
  }

  /** ltrim removes exactly a leading run of c when what follows does not start with c. */
  lemma {:induction false} TrimLeftRun(run: string, rest: string, c: char)
    requires forall i :: 0 <= i < |run| ==> run[i] == c
    requires rest == [] || rest[0] != c
    ensures TrimLeft(run + rest, c) == rest
    decreases |run|
  {
    if run != [] {
      assert (run + rest)[1..] == run[1..] + rest;
      TrimLeftRun(run[1..], rest, c);
    }
  }

  /**
   * Every source is a run of '.', then a run of '/', then the rest; the local
   * path is "/" + rest, or empty when there is no rest.
   */
  lemma LocalPathOf(dots: string, slashes: string, rest: string)
    requires forall i :: 0 <= i < |dots| ==> dots[i] == '.'
    requires forall i :: 0 <= i < |slashes| ==> slashes[i] == '/'
    requires rest == [] || (rest[0] != '/' && (slashes == [] ==> rest[0] != '.'))
    ensures LocalPath(dots + slashes + rest) == if rest == [] then [] else "/" + rest
  {
    assert dots + slashes + rest == dots + (slashes + rest);
    TrimLeftRun(dots, slashes + rest, '.');
    TrimLeftRun(slashes, rest, '/');
  }

  /** The NFS named volume declared for one relative source. */
  function NfsVolumeDefinition(pwd: string, source: string): VolumeDefinition
  {
    VolumeDefinition(NfsDriver, NfsType, NfsMountOptions, ":" + pwd + LocalPath(source))
  }

  /** "." has no local part; "./p" and "../p" both have "/p". */
  lemma LocalPathOfDot()
    ensures LocalPath(".") == ""
  {
    LocalPathOf(".", "", "");
    assert "." + "" + "" == ".";
  }

  lemma LocalPathOfDotSlash(p: string)
    requires p != [] && p[0] != '/'
    ensures LocalPath("./" + p) == "/" + p
  {
    assert "." + "/" + p == "./" + p by {
      assert "." + "/" == "./";
    }
    LocalPathOf(".", "/", p);
  }

  lemma LocalPathOfDotDotSlash(p: string)
    requires p != [] && p[0] != '/'
    ensures LocalPath("../" + p) == "/" + p
  {
    assert ".." + "/" + p == "../" + p by {
      assert ".." + "/" == "../";
    }
    LocalPathOf("..", "/", p);
  }

  /** The device for "." is the working directory itself. */
  lemma NfsDeviceOfDot(pwd: string)
    ensures NfsVolumeDefinition(pwd, ".").device == ":" + pwd
  {
    LocalPathOfDot();
  }

  /**
   * The device for "./p" is the path p below the working directory; the
   * whole run of leading dots is dropped, so "../p" names the same device.
   */
  lemma NfsDeviceOfRelative(pwd: string, p: string)
    requires p != [] && p[0] != '/'
    ensures NfsVolumeDefinition(pwd, "./" + p).device == ":" + pwd + "/" + p
    ensures NfsVolumeDefinition(pwd, "../" + p).device == ":" + pwd + "/" + p
  {
    assert LocalPath("./" + p) == "/" + p && LocalPath("../" + p) == "/" + p by {
      LocalPathOfDotSlash(p);
      LocalPathOfDotDotSlash(p);
    }
    ConcatAssoc(":" + pwd, "/", p);
  }

  /** A volume spec that the override rewrites, with the service it belongs to. */
  datatype Mount = Mount(service: string, source: string, dest: string)

  /**
   * The three conditions for a spec to take part: it is a string, it
   * matches the bind-mount pattern, and its source resolved against the
   * working directory is a directory.
   */
  function Eligible(pwd: string, isDir: string -> bool, service: string, entry: VolumeEntry): Option<Mount>
  {
    match entry
    case OtherSyntax => None
    case ShortSyntax(spec) =>
      match ParseBindMount(spec)
      case None => None
      case Some(b) => if isDir(pwd + "/" + b.source) then Some(Mount(service, b.source, b.destWithOptions)) else None
  }

  /** The eligible specs of one service, in declared order. */
  function ServiceMounts(pwd: string, isDir: string -> bool, service: string, entries: seq<VolumeEntry>): (ms: seq<Mount>)
    ensures |ms| <= |entries|
    decreases |entries|
  {
    if entries == [] then []
    else
      var init := ServiceMounts(pwd, isDir, service, entries[..|entries| - 1]);
      match Eligible(pwd, isDir, service, entries[|entries| - 1])
      case None => init
      case Some(m) => init + [m]
  }

  /** The eligible specs of all services, services in file order. */
  function Mounts(pwd: string, isDir: string -> bool, services: seq<ServiceDef>): seq<Mount>
    decreases |services|
  {
    if services == [] then []
    else
      var last := services[|services| - 1];
      Mounts(pwd, isDir, services[..|services| - 1]) + ServiceMounts(pwd, isDir, last.name, last.volumes)
  }

  /** The mounts of one more entry: those of the entries before it, then its own if it is eligible. */
  lemma ServiceMountsSnoc(pwd: string, isDir: string -> bool, service: string, entries: seq<VolumeEntry>, j: nat)
    requires j < |entries|
    ensures Eligible(pwd, isDir, service, entries[j]).None?
            ==> ServiceMounts(pwd, isDir, service, entries[..j + 1]) == ServiceMounts(pwd, isDir, service, entries[..j])
    ensures Eligible(pwd, isDir, service, entries[j]).Some?
            ==> (ServiceMounts(pwd, isDir, service, entries[..j + 1])
                 == ServiceMounts(pwd, isDir, service, entries[..j]) + [Eligible(pwd, isDir, service, entries[j]).value])
  {
    assert entries[..j + 1][..j] == entries[..j];
  }

  /** The mounts of one more service: those of the services before it, then its own. */
  lemma MountsSnoc(pwd: string, isDir: string -> bool, services: seq<ServiceDef>, i: nat)
    requires i < |services|
    ensures Mounts(pwd, isDir, services[..i + 1])
         == Mounts(pwd, isDir, services[..i]) + ServiceMounts(pwd, isDir, services[i].name, services[i].volumes)
  {
    assert services[..i + 1][..i] == services[..i];
  }

  /** Every mount of a service's list comes from one of its entries. */
  lemma {:induction false} ServiceMountOrigin(pwd: string, isDir: string -> bool, service: string, entries: seq<VolumeEntry>, m: Mount)
    requires m in ServiceMounts(pwd, isDir, service, entries)
    ensures exists j :: 0 <= j < |entries| && Eligible(pwd, isDir, service, entries[j]) == Some(m)
    decreases |entries|
  {
    var n := |entries| - 1;
    var init, e := entries[..n], Eligible(pwd, isDir, service, entries[n]);
    assert ServiceMounts(pwd, isDir, service, entries)
           == ServiceMounts(pwd, isDir, service, init) + (if e.Some? then [e.value] else []);
    if m in ServiceMounts(pwd, isDir, service, init) {
      ServiceMountOrigin(pwd, isDir, service, init, m);
      var j :| 0 <= j < |init| && Eligible(pwd, isDir, service, init[j]) == Some(m);
      assert entries[j] == init[j];
    } else {
      assert Eligible(pwd, isDir, service, entries[n]) == Some(m);
    }
  }

  /** Every eligible entry yields a mount of its service's list. */
  lemma {:induction false} ServiceMountOfEntry(pwd: string, isDir: string -> bool, service: string, entries: seq<VolumeEntry>, j: nat)
    requires j < |entries| && Eligible(pwd, isDir, service, entries[j]).Some?
    ensures Eligible(pwd, isDir, service, entries[j]).value in ServiceMounts(pwd, isDir, service, entries)
    decreases |entries|
  {
    var n := |entries| - 1;
    var init := entries[..n];
    if j < n {
      assert init[j] == entries[j];
      ServiceMountOfEntry(pwd, isDir, service, init, j);
    }
  }

  /** Every mount of a service's list carries that service's name. */
  lemma {:induction false} ServiceMountsService(pwd: string, isDir: string -> bool, service: string, entries: seq<VolumeEntry>)
    ensures forall m :: m in ServiceMounts(pwd, isDir, service, entries) ==> m.service == service
    decreases |entries|
  {
    if entries != [] {
      ServiceMountsService(pwd, isDir, service, entries[..|entries| - 1]);
    }
  }

  /** Every mount of the whole list belongs to the list of one service. */
  lemma {:induction false} MountOrigin(pwd: string, isDir: string -> bool, services: seq<ServiceDef>, m: Mount)
    requires m in Mounts(pwd, isDir, services)
    ensures exists k :: 0 <= k < |services| && m in ServiceMounts(pwd, isDir, services[k].name, services[k].volumes)
    decreases |services|
  {
    var n := |services| - 1;
    var init := services[..n];
    if m in Mounts(pwd, isDir, init) {
      MountOrigin(pwd, isDir, init, m);
      var k :| 0 <= k < |init| && m in ServiceMounts(pwd, isDir, init[k].name, init[k].volumes);
      assert services[k] == init[k];
    }
  }

  /** Every mount of a service's list is in the whole list. */
  lemma {:induction false} MountOfService(pwd: string, isDir: string -> bool, services: seq<ServiceDef>, k: nat, m: Mount)
    requires k < |services| && m in ServiceMounts(pwd, isDir, services[k].name, services[k].volumes)
    ensures m in Mounts(pwd, isDir, services)
    decreases |services|
  {
    var n := |services| - 1;
    var init, last := services[..n], services[n];
    assert Mounts(pwd, isDir, services)
           == Mounts(pwd, isDir, init) + ServiceMounts(pwd, isDir, last.name, last.volumes);
    if k < n {
      assert m in Mounts(pwd, isDir, init) by {
        assert init[k] == services[k];
        MountOfService(pwd, isDir, init, k, m);
      }
    } else {
      assert k == n;
    }
  }

  /** The sources of a list of mounts, in order. */
  function Sources(ms: seq<Mount>): (s: seq<string>)
    ensures |s| == |ms| && forall i :: 0 <= i < |ms| ==> s[i] == ms[i].source
    decreases |ms|
  {
    if ms == [] then [] else Sources(ms[..|ms| - 1]) + [ms[|ms| - 1].source]
  }

  /** The distinct values of xs, each at its first occurrence. */
  function Distinct(xs: seq<string>): (d: seq<string>)
    ensures forall x :: x in d <==> x in xs
    decreases |xs|
  {
    if xs == [] then []
    else
      var init := Distinct(xs[..|xs| - 1]);
      var x := xs[|xs| - 1];
      assert forall y :: y in xs <==> y in xs[..|xs| - 1] || y == x by {
        assert xs == xs[..|xs| - 1] + [x];
      }
      if x in init then init else init + [x]
  }

  /** No value is listed twice. */
  lemma {:induction false} DistinctPairwise(xs: seq<string>)
    ensures forall i, j :: 0 <= i < j < |Distinct(xs)| ==> Distinct(xs)[i] != Distinct(xs)[j]
    decreases |xs|
  {
    if xs != [] {
      var init, x := xs[..|xs| - 1], xs[|xs| - 1];
      DistinctPairwise(init);
      var d0 := Distinct(init);
      if x !in d0 {
        var d := d0 + [x];
        assert Distinct(xs) == d;
        forall i, j | 0 <= i < j < |d| ensures d[i] != d[j] {
          assert d[i] == d0[i] && d0[i] in d0;
          if j < |d0| {
            assert d[j] == d0[j] && d0[i] != d0[j];
          } else {
            assert d[j] == x;
          }
        }
      }
    }
  }

  lemma DistinctSnoc(xs: seq<string>, x: string)
    ensures Distinct(xs + [x]) == if x in xs then Distinct(xs) else Distinct(xs) + [x]
  {
    assert (xs + [x])[..|xs|] == xs;
  }

  /** The first occurrence of x is unaffected by anything appended after it. */
  lemma IndexOfPrefix(xs: seq<string>, ys: seq<string>, x: string)
    requires x in xs
    ensures IndexOf(xs + ys, x) == IndexOf(xs, x)
  {
    var i, k := IndexOf(xs, x), IndexOf(xs + ys, x);
    assert (xs + ys)[i] == x;
    assert (xs + ys)[..i] == xs[..i];
  }

  /** Distinct keeps first-encounter order: a value listed earlier first occurs earlier. */
  lemma {:induction false} DistinctFirstEncounter(xs: seq<string>)
    ensures forall i, j :: 0 <= i < j < |Distinct(xs)| ==> IndexOf(xs, Distinct(xs)[i]) < IndexOf(xs, Distinct(xs)[j])
    decreases |xs|
  {
    if xs != [] {
      var init, x := xs[..|xs| - 1], xs[|xs| - 1];
      assert xs == init + [x];
      DistinctFirstEncounter(init);
      var d0, d := Distinct(init), Distinct(xs);
      assert d == if x in d0 then d0 else d0 + [x];
      forall i, j | 0 <= i < j < |d| ensures IndexOf(xs, d[i]) < IndexOf(xs, d[j]) {
        assert d[i] == d0[i] && d0[i] in init;
        IndexOfPrefix(init, [x], d0[i]);
        if j < |d0| {
          assert d[j] == d0[j] && d0[j] in init;
          IndexOfPrefix(init, [x], d0[j]);
        } else {
          assert d[j] == x && x !in init;
          assert IndexOf(xs, x) == |init| by {
            assert xs[|init|] == x;
            assert xs[..|init|] == init;
          }
        }
      }
    }
  }


  /** The name given to the k-th distinct source. */
  function VolumeName(k: nat): string
  {
    "nfs" + NatToString(k)
  }

  lemma VolumeNamesDistinct()
    ensures forall i: nat, j: nat :: VolumeName(i) == VolumeName(j) ==> i == j
  {
    forall i: nat, j: nat | VolumeName(i) == VolumeName(j) ensures i == j {
      assert NatToString(i) == VolumeName(i)[3..];
      assert NatToString(j) == VolumeName(j)[3..];
      NatToStringInjective(i, j);
    }
  }

  /** The `sourcePathMap` for the distinct sources in order: the k-th source to nfs<k>. */
  function NameMap(order: seq<string>): map<string, string>
    decreases |order|
  {
    if order == [] then map[]
    else NameMap(order[..|order| - 1])[order[|order| - 1] := VolumeName(|order| - 1)]
  }

  /** The top-level `volumes`: nfs<k> declared for the k-th distinct source. */
  function Definitions(pwd: string, order: seq<string>): map<string, VolumeDefinition>
    decreases |order|
  {
    if order == [] then map[]
    else Definitions(pwd, order[..|order| - 1])[VolumeName(|order| - 1) := NfsVolumeDefinition(pwd, order[|order| - 1])]
  }

  predicate Named(ms: seq<Mount>, order: seq<string>)
  {
    forall i :: 0 <= i < |ms| ==> ms[i].source in order
  }

  /** One service's rewritten `volumes` list: "<name>:<dest>" for each of its mounts, in order. */
  function Rewrites(ms: seq<Mount>, order: seq<string>, service: string): seq<string>
    requires Named(ms, order)
    decreases |ms|
  {
    if ms == [] then []
    else
      var m := ms[|ms| - 1];
      Rewrites(ms[..|ms| - 1], order, service)
        + (if m.service == service then [VolumeName(IndexOf(order, m.source)) + ":" + m.dest] else [])
  }

  /** The services that have at least one mount. */
  function ServiceNames(ms: seq<Mount>): set<string>
    decreases |ms|
  {
    if ms == [] then {} else ServiceNames(ms[..|ms| - 1]) + {ms[|ms| - 1].service}
  }

  /** The `services` part of the override: the services with a mount, each with its list and HOST_OS. */
  function ServiceOverrides(ms: seq<Mount>, order: seq<string>): map<string, ServiceOverride>
    requires Named(ms, order)
  {
    map svc | svc in ServiceNames(ms) :: ServiceOverride(Rewrites(ms, order, svc), HostOsValue)
  }

  /** The override for the eligible mounts ms, with the given version. */
  function Expected(version: string, pwd: string, ms: seq<Mount>): Override
  {
    var order := Distinct(Sources(ms));
    assert Named(ms, order) by {
      forall i | 0 <= i < |ms| ensures ms[i].source in order {
        assert Sources(ms)[i] == ms[i].source;
      }
    }
    Override(version, Definitions(pwd, order), ServiceOverrides(ms, order))
  }

  /** What createOverrideYaml returns for a base file. */
  function CreateOverride(pwd: string, isDir: string -> bool, base: Descriptor): (r: Result<Override>)
    ensures r.Err? <==> IsEmptyVersion(base.version)
    ensures r.Err? ==> r.error == MissingVersion
    ensures r.Ok? ==> r.value.version == base.version.value
  {
    if IsEmptyVersion(base.version) then Err(MissingVersion)
    else Ok(Expected(base.version.value, pwd, Mounts(pwd, isDir, base.services)))
  }
}

/**
 * One step of createOverrideYaml's loops: the accumulated state after the
 * eligible mounts ms, and how one more mount extends it.
 */
module OverrideState {
  import opened Results
  import opened Text
  import opened ComposeYaml

  /** The three maps the builder keeps while it walks the volume entries. */
  datatype BuildState = BuildState(
    sourcePathMap: map<string, string>,
    volumes: map<string, VolumeDefinition>,
    services: map<string, ServiceOverride>)

  /**
   * One eligible mount applied to the builder's maps: the source is named
   * "nfs<k>", k the number of sources named so far, and its volume
   * declared, unless it already has a name; then "<name>:<destination>"
   * is appended to the service's list and its HOST_OS set.
   */
  function AddMountStep(pwd: string, st: BuildState, m: Mount): BuildState
  {
    var isNew := m.source !in st.sourcePathMap;
    var spm := if isNew then st.sourcePathMap[m.source := VolumeName(|st.sourcePathMap|)] else st.sourcePathMap;
    var vols := if isNew then st.volumes[VolumeName(|st.sourcePathMap|) := NfsVolumeDefinition(pwd, m.source)] else st.volumes;
    var prev := if m.service in st.services then st.services[m.service].volumes else [];
    BuildState(spm, vols, st.services[m.service := ServiceOverride(prev + [spm[m.source] + ":" + m.dest], HostOsValue)])
  }

  /** The builder's maps after the mounts ms, one step at a time from empty maps. */
  function Replay(pwd: string, ms: seq<Mount>): BuildState
    decreases |ms|
  {
    if ms == [] then BuildState(map[], map[], map[])
    else AddMountStep(pwd, Replay(pwd, ms[..|ms| - 1]), ms[|ms| - 1])
  }

  lemma ReplaySnoc(pwd: string, ms: seq<Mount>, m: Mount)
    ensures Replay(pwd, ms + [m]) == AddMountStep(pwd, Replay(pwd, ms), m)
  {
    assert (ms + [m])[..|ms|] == ms;
  }

  /**
   * The builder's maps after the mounts ms agree with the specification of
   * those mounts: names in order of first encounter, one volume per name,
   * each service's rewritten list.
   */
  ghost predicate StateAfter(pwd: string, ms: seq<Mount>, st: BuildState)
  {
    var order := Distinct(Sources(ms));
    && Named(ms, order)
    && st.sourcePathMap == NameMap(order)
    && |st.sourcePathMap| == |order|
    && st.volumes == Definitions(pwd, order)
    && st.services == ServiceOverrides(ms, order)
  }

  lemma SourcesSnoc(ms: seq<Mount>, m: Mount)
    ensures Sources(ms + [m]) == Sources(ms) + [m.source]
  {
    assert (ms + [m])[..|ms|] == ms;
  }

  /** Names already given stay the same when more sources are appended. */
  lemma {:induction false} RewritesExtend(ms: seq<Mount>, order: seq<string>, ys: seq<string>, service: string)
    requires Named(ms, order)
    ensures Named(ms, order + ys)
    ensures Rewrites(ms, order + ys, service) == Rewrites(ms, order, service)
    decreases |ms|
  {
    if ms != [] {
      var n := |ms| - 1;
      RewritesExtend(ms[..n], order, ys, service);
      IndexOfPrefix(order, ys, ms[n].source);
    }
  }

  /** A service with no mount has an empty list. */
  lemma {:induction false} RewritesOutside(ms: seq<Mount>, order: seq<string>, service: string)
    requires Named(ms, order)
    requires service !in ServiceNames(ms)
    ensures Rewrites(ms, order, service) == []
    decreases |ms|
  {
    if ms != [] {
      RewritesOutside(ms[..|ms| - 1], order, service);
    }
  }

  lemma ServiceOverridesSnoc(ms: seq<Mount>, order: seq<string>, m: Mount)
    requires Named(ms, order) && m.source in order
    ensures Named(ms + [m], order)
    ensures ServiceOverrides(ms + [m], order)
            == ServiceOverrides(ms, order)[m.service := ServiceOverride(
                 Rewrites(ms, order, m.service) + [VolumeName(IndexOf(order, m.source)) + ":" + m.dest],
                 HostOsValue)]
  {
    var ms' := ms + [m];
    assert ms'[..|ms|] == ms;
    var entry := VolumeName(IndexOf(order, m.source)) + ":" + m.dest;
    var L := ServiceOverrides(ms', order);
    var R := ServiceOverrides(ms, order)[m.service := ServiceOverride(Rewrites(ms, order, m.service) + [entry], HostOsValue)];
    assert ServiceNames(ms') == ServiceNames(ms) + {m.service};
    forall svc | svc in L ensures svc in R && L[svc] == R[svc] {
      assert Rewrites(ms', order, svc) == Rewrites(ms, order, svc) + (if m.service == svc then [entry] else []);
    }
    assert L.Keys == R.Keys;
  }

  lemma NameMapSnoc(order: seq<string>, x: string)
    ensures NameMap(order + [x]) == NameMap(order)[x := VolumeName(|order|)]
  {
    var ys := order + [x];
    assert ys[..|ys| - 1] == order && ys[|ys| - 1] == x;
  }

  lemma DefinitionsSnoc(pwd: string, order: seq<string>, x: string)
    ensures Definitions(pwd, order + [x]) == Definitions(pwd, order)[VolumeName(|order|) := NfsVolumeDefinition(pwd, x)]
  {
    var ys := order + [x];
    assert ys[..|ys| - 1] == order && ys[|ys| - 1] == x;
  }

  /** Services' lists do not change when more sources are appended to the order. */
  lemma ServiceOverridesExtend(ms: seq<Mount>, order: seq<string>, ys: seq<string>)
    requires Named(ms, order)
    ensures Named(ms, order + ys)
    ensures ServiceOverrides(ms, order + ys) == ServiceOverrides(ms, order)
  {
    RewritesExtend(ms, order, [], "");
    forall svc | svc in ServiceNames(ms) ensures Rewrites(ms, order + ys, svc) == Rewrites(ms, order, svc) {
      RewritesExtend(ms, order, ys, svc);
    }
  }

  /** The source map's keys are the sources named so far. */
  lemma {:induction false} NameMapDomain(order: seq<string>)
    ensures forall s :: s in NameMap(order) <==> s in order
    decreases |order|
  {
    if order != [] {
      var init := order[..|order| - 1];
      NameMapDomain(init);
      assert order == init + [order[|order| - 1]];
    }
  }

  /** With distinct sources, each source maps to the name of its position. */
  lemma {:induction false} NameMapAt(order: seq<string>, s: string)
    requires forall i, j :: 0 <= i < j < |order| ==> order[i] != order[j]
    requires s in order
    ensures s in NameMap(order) && NameMap(order)[s] == VolumeName(IndexOf(order, s))
    decreases |order|
  {
    var n := |order| - 1;
    var init := order[..n];
    assert order == init + [order[n]];
    if s != order[n] {
      assert s in init;
      NameMapAt(init, s);
      MapUpdateOther(NameMap(init), order[n], s, VolumeName(n));
      IndexOfPrefix(init, [order[n]], s);
    } else {
      assert s !in init;
      assert IndexOf(order, s) == n by {
        assert order[..n] == init;
      }
    }
  }

  /** The distinct sources grow by the new source exactly when it was not seen before. */
  lemma OrderStep(ms: seq<Mount>, m: Mount)
    ensures var order := Distinct(Sources(ms));
            Distinct(Sources(ms + [m])) == order + (if m.source in order then [] else [m.source])
    ensures Named(ms + [m], Distinct(Sources(ms + [m])))
  {
    SourcesSnoc(ms, m);
    DistinctSnoc(Sources(ms), m.source);
    var ms', order' := ms + [m], Distinct(Sources(ms + [m]));
    forall i | 0 <= i < |ms'| ensures ms'[i].source in order' {
      assert Sources(ms')[i] == ms'[i].source;
    }
  }

  /** The loop's update of `sourcePathMap` for one more mount. */
  lemma NamesStep(order: seq<string>, x: string, spm: map<string, string>, spm': map<string, string>)
    requires forall i, j :: 0 <= i < j < |order| ==> order[i] != order[j]
    requires spm == NameMap(order) && |spm| == |order|
    requires spm' == if x in spm then spm else spm[x := VolumeName(|spm|)]
    ensures x in spm <==> x in order
    ensures var order' := order + (if x in order then [] else [x]);
            && spm' == NameMap(order') && |spm'| == |order'|
            && x in spm' && spm'[x] == VolumeName(IndexOf(order', x))
  {
    NameMapDomain(order);
    var order' := order + (if x in order then [] else [x]);
    if x !in order {
      NameMapSnoc(order, x);
    } else {
      assert order' == order;
    }
    NameMapAt(order', x);
  }

  /** The loop's update of the top-level `volumes` for one more mount. */
  lemma VolumesStep(pwd: string, order: seq<string>, x: string, isNew: bool, count: nat,
                    vols: map<string, VolumeDefinition>, vols': map<string, VolumeDefinition>)
    requires vols == Definitions(pwd, order) && count == |order| && (isNew <==> x !in order)
    requires vols' == if isNew then vols[VolumeName(count) := NfsVolumeDefinition(pwd, x)] else vols
    ensures vols' == Definitions(pwd, order + (if x in order then [] else [x]))
  {
    if isNew {
      assert order + (if x in order then [] else [x]) == order + [x];
      DefinitionsSnoc(pwd, order, x);
    } else {
      assert order + (if x in order then [] else [x]) == order;
    }
  }

  /** The loop's update of one service's override for one more mount. */
  lemma ServicesStep(ms: seq<Mount>, order: seq<string>, tail: seq<string>, m: Mount,
                     services: map<string, ServiceOverride>, name: string, services': map<string, ServiceOverride>)
    requires Named(ms, order) && m.source in order + tail
    requires services == ServiceOverrides(ms, order)
    requires name == VolumeName(IndexOf(order + tail, m.source))
    requires services' == services[m.service := ServiceOverride(
               (if m.service in services then services[m.service].volumes else []) + [name + ":" + m.dest], HostOsValue)]
    ensures Named(ms + [m], order + tail)
    ensures services' == ServiceOverrides(ms + [m], order + tail)
  {
    ServiceOverridesExtend(ms, order, tail);
    RewritesExtend(ms, order, tail, m.service);
    ServiceOverridesSnoc(ms, order + tail, m);
    if m.service !in services {
      RewritesOutside(ms, order, m.service);
    }
  }

  /**
   * Appending one eligible mount to the processed list and applying the
   * loop body's updates (name the source on first encounter, declare its
   * volume, append "<name>:<dest>", set HOST_OS) keeps the state in step.
   */
  lemma AddMountStepServices(pwd: string, st: BuildState, m: Mount)
    ensures var st' := AddMountStep(pwd, st, m);
            && m.source in st'.sourcePathMap
            && st'.services == st.services[m.service := ServiceOverride(
                 (if m.service in st.services then st.services[m.service].volumes else [])
                 + [st'.sourcePathMap[m.source] + ":" + m.dest], HostOsValue)]
  {
  }

  lemma StateStep(pwd: string, ms: seq<Mount>, m: Mount, st: BuildState)
    requires StateAfter(pwd, ms, st)
    ensures StateAfter(pwd, ms + [m], AddMountStep(pwd, st, m))
  {
    var st' := AddMountStep(pwd, st, m);
    var order := Distinct(Sources(ms));
    var tail := if m.source in order then [] else [m.source];
    var order' := Distinct(Sources(ms + [m]));
    assert order' == order + tail by { OrderStep(ms, m); }
    assert Named(ms + [m], order') by { OrderStep(ms, m); }
    DistinctPairwise(Sources(ms));
    assert && (m.source in st.sourcePathMap <==> m.source in order)
           && st'.sourcePathMap == NameMap(order') && |st'.sourcePathMap| == |order'|
           && st'.sourcePathMap[m.source] == VolumeName(IndexOf(order', m.source)) by {
      NamesStep(order, m.source, st.sourcePathMap, st'.sourcePathMap);
    }
    assert st'.volumes == Definitions(pwd, order') by {
      VolumesStep(pwd, order, m.source, m.source !in st.sourcePathMap, |st.sourcePathMap|, st.volumes, st'.volumes);
    }
    var name := st'.sourcePathMap[m.source];
    AddMountStepServices(pwd, st, m);
    assert name == VolumeName(IndexOf(order + tail, m.source));
    assert st'.services == ServiceOverrides(ms + [m], order') by {
      ServicesStep(ms, order, tail, m, st.services, name, st'.services);
    }
  }

  /** Replaying the mounts one step at a time keeps the maps in agreement with the specification. */
  lemma {:induction false} ReplayState(pwd: string, ms: seq<Mount>)
    ensures StateAfter(pwd, ms, Replay(pwd, ms))
    decreases |ms|
  {
    if ms != [] {
      var init, m := ms[..|ms| - 1], ms[|ms| - 1];
      assert ms == init + [m];
      assert StateAfter(pwd, init + [m], AddMountStep(pwd, Replay(pwd, init), m)) by {
        ReplayState(pwd, init);
        StateStep(pwd, init, m, Replay(pwd, init));
      }
    }
  }

  /** The override the builder's maps make is the specified override. */
  lemma ReplayMatchesExpected(version: string, pwd: string, ms: seq<Mount>)
    ensures var st := Replay(pwd, ms); Override(version, st.volumes, st.services) == Expected(version, pwd, ms)
  {
    ReplayState(pwd, ms);
  }
}
