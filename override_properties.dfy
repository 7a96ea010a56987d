/**
 * What the override built from a base descriptor says, stated against the
 * descriptor itself: which specs contribute, how volumes are named and
 * shared, and what each service's list holds.
 */
module OverrideProperties {
  import opened Results
  import opened Text
  import opened ComposeYaml
  import opened OverrideState

  /** The short-syntax spec "<source>:<dest>" of a directory under pwd becomes a mount with exactly that source and destination. */
  lemma EligibleBindMount(pwd: string, isDir: string -> bool, service: string, source: string, dest: string)
    requires |source| > 0 && source[0] == '.' && ':' !in source && '\n' !in source
    requires '\n' !in dest
    ensures isDir(pwd + "/" + source)
            ==> Eligible(pwd, isDir, service, ShortSyntax(source + ":" + dest)) == Some(Mount(service, source, dest))
    ensures !isDir(pwd + "/" + source)
            ==> Eligible(pwd, isDir, service, ShortSyntax(source + ":" + dest)).None?
  {
    ParseBindMountFormat(source, dest, false);
    assert source + ":" + dest + "" == source + ":" + dest;
  }

  /** The keys of the top-level volumes are exactly nfs0 .. nfs(n-1), one per distinct source. */
  lemma {:induction false} DefinitionsKeys(pwd: string, order: seq<string>)
    ensures forall k: nat :: VolumeName(k) in Definitions(pwd, order) <==> k < |order|
    ensures forall name :: name in Definitions(pwd, order) ==> exists k :: 0 <= k < |order| && name == VolumeName(k)
    decreases |order|
  {
    VolumeNamesDistinct();
    if order != [] {
      DefinitionsKeys(pwd, order[..|order| - 1]);
    }
  }

  lemma VolumeNamesDiffer(i: nat, j: nat)
    requires i != j
    ensures VolumeName(i) != VolumeName(j)
  {
    VolumeNamesDistinct();
  }

  lemma DefinitionsLast(pwd: string, order: seq<string>)
    requires order != []
    ensures VolumeName(|order| - 1) in Definitions(pwd, order)
    ensures Definitions(pwd, order)[VolumeName(|order| - 1)] == NfsVolumeDefinition(pwd, order[|order| - 1])
  {
  }

  lemma DefinitionsEarlier(pwd: string, order: seq<string>, k: nat)
    requires k < |order| - 1
    ensures VolumeName(k) in Definitions(pwd, order[..|order| - 1]) ==> VolumeName(k) in Definitions(pwd, order)
    ensures VolumeName(k) in Definitions(pwd, order[..|order| - 1])
            ==> Definitions(pwd, order)[VolumeName(k)] == Definitions(pwd, order[..|order| - 1])[VolumeName(k)]
  {
    var n := |order| - 1;
    VolumeNamesDiffer(k, n);
    MapUpdateOther(Definitions(pwd, order[..n]), VolumeName(n), VolumeName(k), NfsVolumeDefinition(pwd, order[n]));
  }

  /** Volume nfs<k> is the NFS mount of the k-th distinct source. */
  lemma {:induction false} DefinitionsAt(pwd: string, order: seq<string>, k: nat)
    requires k < |order|
    ensures VolumeName(k) in Definitions(pwd, order)
    ensures Definitions(pwd, order)[VolumeName(k)] == NfsVolumeDefinition(pwd, order[k])
    decreases |order|
  {
    var n := |order| - 1;
    if k == n {
      DefinitionsLast(pwd, order);
    } else {
      var init := order[..n];
      assert init[k] == order[k];
      DefinitionsAt(pwd, init, k);
      DefinitionsEarlier(pwd, order, k);
    }
  }

  /** The sources of ms, in the order they are first met: each eligible source once. */
  lemma {:induction false} SourcesOrder(ms: seq<Mount>)
    ensures forall s :: s in Distinct(Sources(ms)) <==> exists i :: 0 <= i < |ms| && ms[i].source == s
    ensures forall i, j :: 0 <= i < j < |Distinct(Sources(ms))| ==> Distinct(Sources(ms))[i] != Distinct(Sources(ms))[j]
  {
    var order := Distinct(Sources(ms));
    DistinctPairwise(Sources(ms));
    forall s ensures s in order <==> exists i :: 0 <= i < |ms| && ms[i].source == s {
      if s in order {
        var i :| 0 <= i < |Sources(ms)| && Sources(ms)[i] == s;
      }
      if exists i :: 0 <= i < |ms| && ms[i].source == s {
        var i :| 0 <= i < |ms| && ms[i].source == s;
        assert Sources(ms)[i] == s;
      }
    }
  }

  /**
   * The override's volumes: one per distinct eligible source, named nfs0,
   * nfs1, ... in order of first encounter, nfs<k> mounting the k-th source.
   */
  lemma ExpectedVolumes(version: string, pwd: string, ms: seq<Mount>)
    ensures forall k: nat :: VolumeName(k) in Expected(version, pwd, ms).volumes <==> k < |Distinct(Sources(ms))|
    ensures forall name :: name in Expected(version, pwd, ms).volumes
                           ==> exists k :: 0 <= k < |Distinct(Sources(ms))| && name == VolumeName(k)
    ensures forall k :: 0 <= k < |Distinct(Sources(ms))|
                        ==> Expected(version, pwd, ms).volumes[VolumeName(k)] == NfsVolumeDefinition(pwd, Distinct(Sources(ms))[k])
  {
    var order := Distinct(Sources(ms));
    assert Expected(version, pwd, ms).volumes == Definitions(pwd, order);
    DefinitionsKeys(pwd, order);
    forall k | 0 <= k < |order| ensures Definitions(pwd, order)[VolumeName(k)] == NfsVolumeDefinition(pwd, order[k]) {
      DefinitionsAt(pwd, order, k);
    }
  }

  /**
   * Every volume of the override is an NFS volume of the local driver with
   * the fixed mount options, on a device below pwd.
   */
  lemma ExpectedDrivers(version: string, pwd: string, ms: seq<Mount>)
    ensures forall name :: name in Expected(version, pwd, ms).volumes
                           ==> && Expected(version, pwd, ms).volumes[name].driver == NfsDriver
                               && Expected(version, pwd, ms).volumes[name].driverType == NfsType
                               && Expected(version, pwd, ms).volumes[name].options == NfsMountOptions
                               && ":" + pwd <= Expected(version, pwd, ms).volumes[name].device
  {
    ExpectedVolumes(version, pwd, ms);
  }

  /** With distinct sources, no two sources share a name. */
  lemma NameMapInjective(order: seq<string>)
    requires forall i, j :: 0 <= i < j < |order| ==> order[i] != order[j]
    ensures forall s, t :: s in NameMap(order) && t in NameMap(order) && NameMap(order)[s] == NameMap(order)[t] ==> s == t
  {
    NameMapDomain(order);
    forall s, t | s in NameMap(order) && t in NameMap(order) && NameMap(order)[s] == NameMap(order)[t] ensures s == t {
      NameMapAt(order, s);
      NameMapAt(order, t);
      VolumeNamesDistinct();
    }
  }

  /**
   * The loop's `sourcePathMap` after the mounts ms: every eligible source
   * has the name of its first-encounter position, and no two sources
   * share a name.
   */
  lemma ReplayNames(pwd: string, ms: seq<Mount>)
    ensures forall s :: s in Replay(pwd, ms).sourcePathMap <==> s in Distinct(Sources(ms))
    ensures forall s :: s in Distinct(Sources(ms))
                        ==> Replay(pwd, ms).sourcePathMap[s] == VolumeName(IndexOf(Distinct(Sources(ms)), s))
    ensures forall s, t ::
              (s in Replay(pwd, ms).sourcePathMap && t in Replay(pwd, ms).sourcePathMap
               && Replay(pwd, ms).sourcePathMap[s] == Replay(pwd, ms).sourcePathMap[t]) ==> s == t
  {
    var order := Distinct(Sources(ms));
    assert Replay(pwd, ms).sourcePathMap == NameMap(order) by {
      ReplayState(pwd, ms);
    }
    SourcesOrder(ms);
    NameMapDomain(order);
    NameMapInjective(order);
    forall s | s in order ensures NameMap(order)[s] == VolumeName(IndexOf(order, s)) {
      NameMapAt(order, s);
    }
  }

  /** A service is in ServiceNames exactly when one of the mounts belongs to it. */
  lemma {:induction false} ServiceNamesMembers(ms: seq<Mount>)
    ensures forall svc :: svc in ServiceNames(ms) <==> exists i :: 0 <= i < |ms| && ms[i].service == svc
    decreases |ms|
  {
    if ms != [] {
      var n := |ms| - 1;
      ServiceNamesMembers(ms[..n]);
      forall svc ensures svc in ServiceNames(ms) <==> exists i :: 0 <= i < |ms| && ms[i].service == svc {
        if exists i :: 0 <= i < |ms| && ms[i].service == svc {
          var i :| 0 <= i < |ms| && ms[i].service == svc;
          if i < n {
            assert ms[..n][i] == ms[i];
          }
        }
        if svc in ServiceNames(ms[..n]) {
          var i :| 0 <= i < n && ms[..n][i].service == svc;
          assert ms[i] == ms[..n][i];
        }
      }
    }
  }

  /** The mounts of one service, in the order they were met. */
  function MountsOf(ms: seq<Mount>, service: string): (r: seq<Mount>)
    ensures |r| <= |ms|
    ensures forall m :: m in r ==> m in ms && m.service == service
    decreases |ms|
  {
    if ms == [] then []
    else
      var init := MountsOf(ms[..|ms| - 1], service);
      if ms[|ms| - 1].service == service then init + [ms[|ms| - 1]] else init
  }

  /** Picking one service's mounts distributes over concatenation. */
  lemma {:induction false} MountsOfAppend(a: seq<Mount>, b: seq<Mount>, service: string)
    ensures MountsOf(a + b, service) == MountsOf(a, service) + MountsOf(b, service)
    decreases |b|
  {
    if b == [] {
      assert a + b == a;
    } else {
      var n := |b| - 1;
      assert (a + b)[..|a + b| - 1] == a + b[..n];
      MountsOfAppend(a, b[..n], service);
    }
  }

  /** A list of one service's mounts is kept whole for that service and dropped for any other. */
  lemma {:induction false} MountsOfSame(ms: seq<Mount>, service: string, other: string)
    requires forall m :: m in ms ==> m.service == service
    ensures MountsOf(ms, service) == ms
    ensures other != service ==> MountsOf(ms, other) == []
    decreases |ms|
  {
    if ms != [] {
      var n := |ms| - 1;
      assert ms == ms[..n] + [ms[n]];
      MountsOfSame(ms[..n], service, other);
    }
  }

  /** A name no service carries has no mounts. */
  lemma {:induction false} MountsOfAbsent(pwd: string, isDir: string -> bool, services: seq<ServiceDef>, svc: string)
    requires forall i :: 0 <= i < |services| ==> services[i].name != svc
    ensures MountsOf(Mounts(pwd, isDir, services), svc) == []
    decreases |services|
  {
    if services != [] {
      var n := |services| - 1;
      MountsOfLast(pwd, isDir, services, svc);
      OwnMountsOf(pwd, isDir, services[n], svc);
      assert forall i :: 0 <= i < n ==> services[..n][i].name != svc by {
        assert forall i :: 0 <= i < n ==> services[..n][i] == services[i];
      }
      MountsOfAbsent(pwd, isDir, services[..n], svc);
    }
  }

  /**
   * In declared order: when service names are distinct, as the keys of a
   * YAML mapping are, the mounts of service k among all mounts are exactly
   * the eligible specs of its own list, in the order they are written.
   */
  lemma {:induction false} MountsOfService(pwd: string, isDir: string -> bool, services: seq<ServiceDef>, k: nat)
    requires k < |services|
    requires forall i, j :: 0 <= i < j < |services| ==> services[i].name != services[j].name
    ensures MountsOf(Mounts(pwd, isDir, services), services[k].name)
            == ServiceMounts(pwd, isDir, services[k].name, services[k].volumes)
    decreases |services|, 1
  {
    if k < |services| - 1 {
      MountsOfEarlierService(pwd, isDir, services, k);
    } else {
      MountsOfLastService(pwd, isDir, services);
    }
  }

  /** MountsOfService for a service before the last: the last service adds none of its mounts. */
  lemma {:induction false} MountsOfEarlierService(pwd: string, isDir: string -> bool, services: seq<ServiceDef>, k: nat)
    requires k < |services| - 1
    requires forall i, j :: 0 <= i < j < |services| ==> services[i].name != services[j].name
    ensures MountsOf(Mounts(pwd, isDir, services), services[k].name)
            == ServiceMounts(pwd, isDir, services[k].name, services[k].volumes)
    decreases |services|, 0
  {
    var n := |services| - 1;
    var init := services[..n];
    var svc := services[k].name;
    MountsOfLast(pwd, isDir, services, svc);
    assert MountsOf(ServiceMounts(pwd, isDir, services[n].name, services[n].volumes), svc) == [] by {
      assert svc != services[n].name;
      OwnMountsOf(pwd, isDir, services[n], svc);
    }
    assert MountsOf(Mounts(pwd, isDir, init), svc) == ServiceMounts(pwd, isDir, svc, services[k].volumes) by {
      assert forall i :: 0 <= i < |init| ==> init[i] == services[i];
      MountsOfService(pwd, isDir, init, k);
    }
  }

  /** MountsOfService for the last service: no service before it shares its name. */
  lemma MountsOfLastService(pwd: string, isDir: string -> bool, services: seq<ServiceDef>)
    requires services != []
    requires forall i, j :: 0 <= i < j < |services| ==> services[i].name != services[j].name
    ensures var n := |services| - 1;
            MountsOf(Mounts(pwd, isDir, services), services[n].name)
            == ServiceMounts(pwd, isDir, services[n].name, services[n].volumes)
  {
    var n := |services| - 1;
    var init := services[..n];
    var svc := services[n].name;
    MountsOfLast(pwd, isDir, services, svc);
    OwnMountsOf(pwd, isDir, services[n], svc);
    assert MountsOf(Mounts(pwd, isDir, init), svc) == [] by {
      assert forall i :: 0 <= i < |init| ==> init[i] == services[i];
      MountsOfAbsent(pwd, isDir, init, svc);
    }
  }

  /** The mounts of svc are those among the services before the last, then those of the last. */
  lemma MountsOfLast(pwd: string, isDir: string -> bool, services: seq<ServiceDef>, svc: string)
    requires services != []
    ensures var n := |services| - 1;
            MountsOf(Mounts(pwd, isDir, services), svc)
            == MountsOf(Mounts(pwd, isDir, services[..n]), svc)
               + MountsOf(ServiceMounts(pwd, isDir, services[n].name, services[n].volumes), svc)
  {
    var n := |services| - 1;
    var own := ServiceMounts(pwd, isDir, services[n].name, services[n].volumes);
    assert Mounts(pwd, isDir, services) == Mounts(pwd, isDir, services[..n]) + own;
    MountsOfAppend(Mounts(pwd, isDir, services[..n]), own, svc);
  }

  /** Among one service's mounts, svc has all of them when it is that service and none otherwise. */
  lemma OwnMountsOf(pwd: string, isDir: string -> bool, s: ServiceDef, svc: string)
    ensures MountsOf(ServiceMounts(pwd, isDir, s.name, s.volumes), svc)
            == if svc == s.name then ServiceMounts(pwd, isDir, s.name, s.volumes) else []
  {
    ServiceMountsService(pwd, isDir, s.name, s.volumes);
    MountsOfSame(ServiceMounts(pwd, isDir, s.name, s.volumes), s.name, svc);
  }

  /** A service's rewritten list holds one "<name>:<dest>" per mount of that service, in order. */
  lemma {:induction false} RewritesOfMounts(ms: seq<Mount>, order: seq<string>, service: string)
    requires Named(ms, order)
    ensures |Rewrites(ms, order, service)| == |MountsOf(ms, service)|
    ensures forall k :: 0 <= k < |MountsOf(ms, service)| ==>
              && MountsOf(ms, service)[k].source in order
              && Rewrites(ms, order, service)[k]
                 == VolumeName(IndexOf(order, MountsOf(ms, service)[k].source)) + ":" + MountsOf(ms, service)[k].dest
    decreases |ms|
  {
    if ms != [] {
      var n := |ms| - 1;
      var init := ms[..n];
      assert Named(init, order) by {
        forall i | 0 <= i < |init| ensures init[i].source in order {
          assert init[i] == ms[i];
        }
      }
      RewritesOfMounts(init, order, service);
      assert ms[n] in ms;
    }
  }

  /** The parts of the override for mounts ms: the distinct sources name every mount. */
  lemma ExpectedParts(version: string, pwd: string, ms: seq<Mount>)
    ensures Named(ms, Distinct(Sources(ms)))
    ensures Expected(version, pwd, ms).volumes == Definitions(pwd, Distinct(Sources(ms)))
    ensures Expected(version, pwd, ms).services == ServiceOverrides(ms, Distinct(Sources(ms)))
  {
    SourcesOrder(ms);
  }

  /** A service's entry in the `services` part: its rewritten list and HOST_OS. */
  lemma ServiceOverridesAt(ms: seq<Mount>, order: seq<string>)
    requires Named(ms, order)
    ensures forall svc :: svc in ServiceOverrides(ms, order) <==> exists i :: 0 <= i < |ms| && ms[i].service == svc
    ensures forall svc :: svc in ServiceOverrides(ms, order)
                          ==> ServiceOverrides(ms, order)[svc] == ServiceOverride(Rewrites(ms, order, svc), HostOsValue)
  {
    ServiceNamesMembers(ms);
  }

  /**
   * The override's services: exactly the services with at least one
   * eligible spec, each with HOST_OS set to Darwin and one entry per
   * eligible spec, "<the source's name>:<dest>", in declared order.
   */
  lemma ExpectedServices(version: string, pwd: string, ms: seq<Mount>)
    ensures forall svc :: svc in Expected(version, pwd, ms).services <==> exists i :: 0 <= i < |ms| && ms[i].service == svc
    ensures forall svc :: svc in Expected(version, pwd, ms).services ==>
              && Expected(version, pwd, ms).services[svc].hostOs == HostOsValue
              && |Expected(version, pwd, ms).services[svc].volumes| == |MountsOf(ms, svc)|
    ensures forall svc, k :: svc in Expected(version, pwd, ms).services && 0 <= k < |MountsOf(ms, svc)| ==>
              && MountsOf(ms, svc)[k].source in Distinct(Sources(ms))
              && Expected(version, pwd, ms).services[svc].volumes[k]
                 == VolumeName(IndexOf(Distinct(Sources(ms)), MountsOf(ms, svc)[k].source)) + ":" + MountsOf(ms, svc)[k].dest
  {
    var order := Distinct(Sources(ms));
    ExpectedParts(version, pwd, ms);
    var so := ServiceOverrides(ms, order);
    ServiceOverridesAt(ms, order);
    forall svc | svc in so
      ensures |so[svc].volumes| == |MountsOf(ms, svc)|
      ensures forall k :: 0 <= k < |MountsOf(ms, svc)| ==>
                && MountsOf(ms, svc)[k].source in order
                && so[svc].volumes[k] == VolumeName(IndexOf(order, MountsOf(ms, svc)[k].source)) + ":" + MountsOf(ms, svc)[k].dest
    {
      RewritesOfMounts(ms, order, svc);
    }
  }

  /** Some volume spec that service svc of the base file declares is eligible. */
  predicate HasEligibleSpec(pwd: string, isDir: string -> bool, services: seq<ServiceDef>, svc: string)
  {
    exists k, j :: 0 <= k < |services| && services[k].name == svc && 0 <= j < |services[k].volumes|
                   && Eligible(pwd, isDir, svc, services[k].volumes[j]).Some?
  }

  /** Every mount of service svc comes from one of its eligible specs. */
  lemma MountHasSpec(pwd: string, isDir: string -> bool, services: seq<ServiceDef>, m: Mount)
    requires m in Mounts(pwd, isDir, services)
    ensures HasEligibleSpec(pwd, isDir, services, m.service)
  {
    MountOrigin(pwd, isDir, services, m);
    var k :| 0 <= k < |services| && m in ServiceMounts(pwd, isDir, services[k].name, services[k].volumes);
    ServiceMountOrigin(pwd, isDir, services[k].name, services[k].volumes, m);
    ServiceMountsService(pwd, isDir, services[k].name, services[k].volumes);
    var j :| 0 <= j < |services[k].volumes| && Eligible(pwd, isDir, services[k].name, services[k].volumes[j]) == Some(m);
    assert services[k].name == m.service;
  }

  /** Every eligible spec of service svc yields a mount of svc. */
  lemma SpecHasMount(pwd: string, isDir: string -> bool, services: seq<ServiceDef>, svc: string)
    requires HasEligibleSpec(pwd, isDir, services, svc)
    ensures exists i :: 0 <= i < |Mounts(pwd, isDir, services)| && Mounts(pwd, isDir, services)[i].service == svc
  {
    var k, j :| 0 <= k < |services| && services[k].name == svc && 0 <= j < |services[k].volumes|
                && Eligible(pwd, isDir, svc, services[k].volumes[j]).Some?;
    var m := Eligible(pwd, isDir, svc, services[k].volumes[j]).value;
    ServiceMountOfEntry(pwd, isDir, svc, services[k].volumes, j);
    MountOfService(pwd, isDir, services, k, m);
    ServiceMountsService(pwd, isDir, svc, services[k].volumes);
    var ms := Mounts(pwd, isDir, services);
    var i :| 0 <= i < |ms| && ms[i] == m;
  }

  /**
   * End to end: a base descriptor's service appears in the override
   * exactly when one of its own volume specs is eligible.
   */
  lemma ServiceAppears(pwd: string, isDir: string -> bool, base: Descriptor, svc: string)
    requires !IsEmptyVersion(base.version)
    ensures svc in CreateOverride(pwd, isDir, base).value.services <==> HasEligibleSpec(pwd, isDir, base.services, svc)
  {
    var ms := Mounts(pwd, isDir, base.services);
    assert CreateOverride(pwd, isDir, base).value == Expected(base.version.value, pwd, ms);
    ExpectedServices(base.version.value, pwd, ms);
    if svc in CreateOverride(pwd, isDir, base).value.services {
      var i :| 0 <= i < |ms| && ms[i].service == svc;
      MountHasSpec(pwd, isDir, base.services, ms[i]);
    }
    if HasEligibleSpec(pwd, isDir, base.services, svc) {
      SpecHasMount(pwd, isDir, base.services, svc);
    }
  }
}
