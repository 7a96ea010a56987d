# mac-dev-shim: the compose environment transformer, modelled in Dafny

mac-dev-shim makes a docker-compose project run well on macOS by mounting
its relative bind mounts over NFS. Its only logic is the PHP class
`ComposeEnvironmentTransformer`. This project models that class and proves
what it promises:

- **Discovery** (`transform`). Starting at the working directory, walk up
  with `dirname` to `/`. The first directory on the way that holds a
  `docker-compose.yml` wins; if none does, the run fails with
  "Could not find docker-compose.yml in this or any parent directory."
- **Write-once cache** (`transform`). The override is cached at
  `$HOME/Library/Caches/FruitionMacDevShim/<crc32(serialize(base) . dir)>.yml`.
  It is built and written only when nothing exists at that path; before the
  build, the cache directory is created. The run reports
  `<dir>/docker-compose.yml:<cache file>`.
- **Override construction** (`createOverrideYaml`). A base file whose
  `version` is missing or empty (`""` or `"0"`, as PHP's `empty()` reads it)
  is refused. Otherwise the version is copied through. Then each service's
  volume specs are walked in order. A spec takes part when:
  - it is a string;
  - it matches `/(^\..*):(.*)$/U`: it starts with `.`, the source is
    everything before the first colon, and the destination-with-options is
    everything after it;
  - `pwd/<source>` is a directory.

  Each distinct source gets one NFS named volume, `nfs0`, `nfs1`, … in
  order of first encounter. Each eligible spec becomes `<name>:<dest>` in
  its service's list, and that service gets `environment.HOST_OS = Darwin`.
- **NFS device** (`getNfsVolumeDefinition`). Strip every leading `.`, then
  every leading `/`, and prefix `/` if anything is left. The device is
  `":" + pwd + <that>`. The driver `local`, the type `nfs` and the mount
  options are fixed.

Layout:

- `results.dfy`: `Option`, `Result` and the two errors with their messages.
- `text.dfy`: PHP's integer-to-string, `ltrim` of one character, and
  small sequence helpers.
- `paths.dfy`: PHP's `dirname` on POSIX paths, the ancestor list, and
  nearest-first discovery.
- `compose_yaml.dfy`:
  - module `ComposeYaml`: the parsed base file and the override tree as
    datatypes; the bind-mount pattern as a string function; the device
    string; a declarative description (`Expected`, `CreateOverride`) of the
    override for a base file.
  - module `OverrideState`: one step of the builder's loops (`AddMountStep`),
    and the proof that replaying the steps yields that description.
- `override_properties.dfy`: what the override says, stated against the
  base file: volume names, sharing between specs, service lists, and which
  services appear.
- `transformer.dfy`:
  - `Run`, a function from a file-system state to the result and the new
    state; `RunRooted`, the same run with the cache problem below
    corrected.
  - the `FileStore` class, which holds the files and directories and is
    updated in place.
  - the `ComposeEnvironmentTransformer` class, whose methods keep the
    source's loops. `Transform` is proved to do what `Run` says, and
    `CreateOverrideYaml` to return `CreateOverride`.

The model follows the code's `ltrim`, which strips the whole run of
leading dots and then the whole run of slashes. So `./x`, `../x` and
`.../x` all give the device `:<pwd>/x`, and `.cache` gives `:<pwd>/cache`.

## Model

| member | source | states |
|---|---|---|
| Paths.Dirname | src/ComposeEnvironmentTransformer.php:61 | For an absolute path, dirname is an absolute prefix of it. It is strictly shorter unless the path is "/". It is "/" or ends just before a '/' of the path, without a trailing slash. |
| Paths.DirnameDrops | src/ComposeEnvironmentTransformer.php:61 | dirname drops exactly the last component. A path of slashes only gives "/". Otherwise the path is dirname, then a run of '/', then one run without '/', then trailing '/'s; dirname has no trailing slash unless it is "/". |
| Paths.DirnameExamples | src/ComposeEnvironmentTransformer.php:61 | dirname of /a/b/c is /a/b, of /a/b is /a, of /a and /z is "/", and of "/" is "/". |
| Paths.AncestorsEnds | src/ComposeEnvironmentTransformer.php:57-64 | The searched tree has at least two entries, starts with pwd and ends with "/" (the walk terminates). |
| Paths.AncestorsChain | src/ComposeEnvironmentTransformer.php:59-64 | Each entry of the tree is dirname of the one before it. No entry between the first and the last is "/". |
| Paths.AncestorsPrefixes | src/ComposeEnvironmentTransformer.php:59-64 | Every entry of the tree is an absolute prefix of pwd. |
| Paths.Nearest | src/ComposeEnvironmentTransformer.php:66-73 | The index found holds a directory with docker-compose.yml, and no earlier entry does. None exactly when no entry does. |
| Paths.DiscoverSpec | src/ComposeEnvironmentTransformer.php:66-76 | Discovery fails exactly when no ancestor of pwd (pwd and "/" included) holds docker-compose.yml. Otherwise the directory it returns holds one, is an absolute prefix of pwd, and is the first such entry of the tree. |
| Paths.DiscoverExamples | src/ComposeEnvironmentTransformer.php:57-76 | From /a/b/c the tree is [/a/b/c, /a/b, /a, /]; with the file only in /a discovery from /a/b/c and from /a/b returns /a; from /z it finds nothing. |
| Text.NatToString | src/ComposeEnvironmentTransformer.php:126 | The decimal rendering of a count is non-empty, all digits, one digit exactly below 10, and has no leading zero. |
| Text.NatToStringInjective | src/ComposeEnvironmentTransformer.php:126 | Different counts render differently. |
| Text.NatToStringValue | src/ComposeEnvironmentTransformer.php:126 | The rendered digits, read as a decimal number, give back the count. |
| Text.TrimLeft | src/ComposeEnvironmentTransformer.php:152 | ltrim(s, c) is a suffix of s. Everything removed is c, and what is left does not start with c. |
| Text.FirstIndex | src/ComposeEnvironmentTransformer.php:114 | The first position of a character: it holds the character and no earlier position does. None exactly when the character is absent. |
| ComposeYaml.ParseBindMount | src/ComposeEnvironmentTransformer.php:114-118 | The pattern matches exactly when the spec starts with '.' and, after dropping one final newline, contains ':' and no newline. The line is then source ":" destination. The source starts with '.' and has no ':'; further colons stay in the destination. |
| ComposeYaml.ParseBindMountFormat | src/ComposeEnvironmentTransformer.php:114-118 | A spec built as source ":" destination, with or without one final newline, parses back into exactly that source and destination. |
| ComposeYaml.LocalPath | src/ComposeEnvironmentTransformer.php:152-155 | The local part is empty, or "/" followed by a character other than '/'. |
| ComposeYaml.LocalPathOf | src/ComposeEnvironmentTransformer.php:152-155 | For a source made of a run of '.', a run of '/' and a rest, the local part is "/" + rest, or empty when there is no rest. |
| ComposeYaml.NfsDeviceOfDot | src/ComposeEnvironmentTransformer.php:151-163 | The device for "." is ":" + pwd. |
| ComposeYaml.NfsDeviceOfRelative | src/ComposeEnvironmentTransformer.php:151-163 | The devices for "./p" and "../p" are both ":" + pwd + "/" + p. |
| OverrideProperties.ExpectedDrivers | src/ComposeEnvironmentTransformer.php:156-162 | Every volume of the override has driver `local`, type `nfs`, the fixed mount options, and a device that starts with ":" + pwd. |
| ComposeYaml.ServiceMountOrigin | src/ComposeEnvironmentTransformer.php:108-122 | Every mount of a service comes from one of its eligible specs. |
| ComposeYaml.ServiceMountOfEntry | src/ComposeEnvironmentTransformer.php:108-122 | Every eligible spec of a service yields one of its mounts. |
| ComposeYaml.MountOrigin | src/ComposeEnvironmentTransformer.php:106-122 | Every mount of the base file belongs to one of its services. |
| ComposeYaml.MountOfService | src/ComposeEnvironmentTransformer.php:106-122 | Every mount of each service is a mount of the base file. |
| ComposeYaml.Distinct | src/ComposeEnvironmentTransformer.php:124-130 | The distinct sources hold exactly the sources met. |
| ComposeYaml.DistinctPairwise | src/ComposeEnvironmentTransformer.php:124-130 | No source is listed twice among the distinct sources. |
| ComposeYaml.DistinctFirstEncounter | src/ComposeEnvironmentTransformer.php:124-130 | The distinct sources are in order of first encounter. |
| ComposeYaml.VolumeNamesDistinct | src/ComposeEnvironmentTransformer.php:126 | Different counts give different volume names "nfs<k>". |
| ComposeYaml.CreateOverride | src/ComposeEnvironmentTransformer.php:98-104 | The build fails exactly when the version is missing, "" or "0", and then with the missing-version error. Otherwise the override's version is the base file's version. |
| OverrideState.StateStep | src/ComposeEnvironmentTransformer.php:124-134 | One eligible mount keeps the loop invariant: sourcePathMap maps the k-th distinct source to nfs<k> and has one entry per distinct source; volumes declare nfs<k> for the k-th source; services hold the rewritten lists. |
| OverrideState.ReplayState | src/ComposeEnvironmentTransformer.php:105-138 | After any sequence of eligible mounts the builder's three maps satisfy that invariant. |
| OverrideState.ReplayMatchesExpected | src/ComposeEnvironmentTransformer.php:102-139 | The override assembled from the builder's maps is the declarative override for the same mounts. |
| OverrideProperties.EligibleBindMount | src/ComposeEnvironmentTransformer.php:108-122 | A spec source ":" dest, with a source starting with '.', contributes the mount (service, source, dest) when pwd/source is a directory, and nothing otherwise. |
| OverrideProperties.DefinitionsKeys | src/ComposeEnvironmentTransformer.php:124-130 | The declared volume names are exactly nfs0 … nfs(n-1), n being the number of distinct sources. |
| OverrideProperties.DefinitionsAt | src/ComposeEnvironmentTransformer.php:124-130 | Volume nfs<k> is the NFS definition of the k-th distinct source. |
| OverrideProperties.SourcesOrder | src/ComposeEnvironmentTransformer.php:124-130 | The distinct sources are exactly the sources of the eligible mounts, with no repetition. |
| OverrideProperties.ExpectedVolumes | src/ComposeEnvironmentTransformer.php:124-130 | The override's top-level volumes are one per distinct eligible source, named nfs0, nfs1, … in order of first encounter. nfs<k> mounts the k-th source. |
| OverrideProperties.NameMapInjective | src/ComposeEnvironmentTransformer.php:124-130 | With distinct sources, no two sources share a name. |
| OverrideProperties.ReplayNames | src/ComposeEnvironmentTransformer.php:124-130 | After the loop, sourcePathMap holds exactly the distinct sources. Each is named nfs<its first-encounter position>, and the map is injective. |
| OverrideProperties.ServiceNamesMembers | src/ComposeEnvironmentTransformer.php:131-134 | A service has an entry exactly when one of the mounts belongs to it. |
| OverrideProperties.RewritesOfMounts | src/ComposeEnvironmentTransformer.php:131-132 | A service's list has one entry per mount of that service, in order. The k-th entry is the name of the k-th mount's source, ":", and its destination. |
| OverrideProperties.ExpectedServices | src/ComposeEnvironmentTransformer.php:131-134 | The override's services are exactly those with an eligible spec. Each has HOST_OS Darwin and one "<name>:<dest>" entry per eligible spec, in declared order. |
| OverrideProperties.MountsOfService | src/ComposeEnvironmentTransformer.php:106-122 | With distinct service names, the mounts of one service among all the mounts are exactly the eligible specs of its own list, in the order written. |
| OverrideProperties.ServiceAppears | src/ComposeEnvironmentTransformer.php:106-134 | A service of the base file appears in the override exactly when one of its own volume specs is eligible. |
| Transformer.Run | src/ComposeEnvironmentTransformer.php:57-85 | The run as written, building the override against pwd. Existing files keep their contents. Only the cache directory may be added to the directories. The not-found error happens exactly when discovery fails. A success reports "<dir>/docker-compose.yml:<cache file>", and the cache file then exists. |
| Transformer.RunWriteOnce | src/ComposeEnvironmentTransformer.php:78-83 | If the cache file exists, a run changes nothing and reports it. Otherwise the run creates the cache directory. No file other than the cache file is ever added. |
| Transformer.RunFresh | src/ComposeEnvironmentTransformer.php:80-82 | Without a cached file, the run fails exactly when the base file has no version, and then writes no file. On success it writes the dumped override to the cache file and nothing else. |
| Transformer.RunIdempotent | src/ComposeEnvironmentTransformer.php:78-85 | A second run from the state the first one left gives the same result and the same state. |
| Transformer.CacheIgnoresWorkingDirectory | src/ComposeEnvironmentTransformer.php:78-85 | Let dir hold a base file whose service mounts ./p, and let pwd lie below dir. A run from dir writes an override whose nfs0 device is ":" + dir + "/" + p. A later run from pwd changes nothing and reports that file, though a build from pwd would write ":" + pwd + "/" + p. |
| Transformer.RunRooted | src/ComposeEnvironmentTransformer.php:57-85 | The corrected run builds the override against the directory of the base file. A success reports "<dir>/docker-compose.yml:<cache file>" for the discovered dir. |
| Transformer.RunRootedAtProject | src/ComposeEnvironmentTransformer.php:57-85 | Run from the project's own directory, the corrected run and the run as written agree. |
| Transformer.RunRootedByProject | src/ComposeEnvironmentTransformer.php:66-85 | The corrected run depends on pwd only through the directory discovered. |
| Transformer.RunRootedCacheSound | src/ComposeEnvironmentTransformer.php:78-83 | When no two base files share a cache file, the corrected run keeps every cache file equal to the dump of a fresh build for its base file. After a success, the reported file holds exactly that dump. |
| Transformer.FileStore.Mkdir | src/ComposeEnvironmentTransformer.php:81 | Creating the cache directory adds it to the directories and leaves the files alone. |
| Transformer.FileStore.DumpFile | src/ComposeEnvironmentTransformer.php:82 | Writing sets that path's contents and changes nothing else. |
| Transformer.ComposeEnvironmentTransformer.BuildTree | src/ComposeEnvironmentTransformer.php:57-64 | The while loop builds exactly the ancestor list of pwd. |
| Transformer.ComposeEnvironmentTransformer.Locate | src/ComposeEnvironmentTransformer.php:66-73 | The foreach with break returns the first entry of the tree that holds docker-compose.yml, or nothing. |
| Transformer.ComposeEnvironmentTransformer.CreateOverrideYaml | src/ComposeEnvironmentTransformer.php:97-140 | The nested loops return exactly CreateOverride of the base file, so every property proved of that description holds of them. |
| Transformer.ComposeEnvironmentTransformer.AddServiceVolumes | src/ComposeEnvironmentTransformer.php:107-136 | The inner loop over one service's specs takes the builder's maps to the replay of that service's eligible mounts. |
| Transformer.ComposeEnvironmentTransformer.AddMount | src/ComposeEnvironmentTransformer.php:124-134 | One eligible spec: a new source is named nfs<size of sourcePathMap> and declared. The service gets "<name>:<dest>" appended and HOST_OS Darwin. |
| Transformer.ComposeEnvironmentTransformer.Transform | src/ComposeEnvironmentTransformer.php:55-86 | The method returns the result and leaves the file store in the state that Run computes from the store it started with. |

## Left out

- Symfony Finder, Filesystem and Yaml are not modelled.
  - Finder's "directory holds docker-compose.yml" becomes membership of a
    map from directory to the already-parsed base file.
  - Finder would also match a directory named docker-compose.yml; the model
    does not.
  - Filesystem becomes a store of file contents and a set of directories.
  - `mkdir` creates only the directory itself; missing parents are not
    modelled.
  - `Yaml::parse` and `Yaml::dump` are given, not computed. The dump is a
    parameter from override trees to text.
- PHP `serialize` and `crc32` are foreign. Only their composition is used,
  as a parameter (`Host.serialize`, `Host.crc32`). The cache name is
  therefore a deterministic but uninterpreted function of the base file and
  the directory.
- `is_dir` is a parameter over the resolved path `pwd + "/" + source`.
- `getenv('PWD')` and `getenv('HOME')` are a constructor argument and a
  `Host` field.
- The working directory must be absolute. From a relative PWD the PHP walk
  never reaches "/" and does not end.
- `echo` is modelled as the returned report string. The runtime exceptions
  are modelled as `Err` values; `Results.Message` gives their texts.
- A missing `services` key, which would make PHP warn, is not modelled. A
  service whose `volumes` is absent or empty has no specs.
- A `version` that is not a string (a number such as 0 or 3.7) is not
  modelled. Version is a string or absent; PHP's `empty()` is modelled for
  absent, "" and "0".
- Not modelled in the output mappings:
  - The order of PHP arrays. Maps are used, and the nfs<k> names carry the
    order of first encounter.
  - PHP's conversion of integer-like service names to integer keys.
  - `environment` is reduced to its only entry, HOST_OS.
- The PCRE engine is not modelled; the one pattern is written directly as a
  string function.
- The nested loops of `createOverrideYaml` are split into three methods:
  - `CreateOverrideYaml` for the loop over services;
  - `AddServiceVolumes` for the loop over one service's specs;
  - `AddMount` for the body that names a source and appends its line.

  The sequence of map updates is the same.

## Findings

| source | as written | input that shows it | evidently intended | confidence | as-written member | corrected member |
|---|---|---|---|---|---|---|
| src/ComposeEnvironmentTransformer.php:79 | The cache key is crc32(serialize(base) . dir). It leaves out pwd, but the override built on a miss depends on pwd: the `is_dir` test (:120) and the NFS device (:161). | /a holds docker-compose.yml, and its service `web` mounts `./src:/app`. Run from /a, then from /a/b. The second run reports the file the first wrote, whose nfs0 device is `:/a/src`; a build from /a/b would give `:/a/b/src`. | A cached override is what a fresh build for the same key gives. The sources are relative to the project root (comment at :113), so they resolve against the directory the key names. | not executed | Transformer.CacheIgnoresWorkingDirectory | Transformer.RunRootedCacheSound |

`Run` and `ComposeEnvironmentTransformer.Transform` keep the code as
written, so that the class is proved against the behaviour it has.
`RunRooted` is the corrected run. It is the same function with the override
built against the discovered directory, and its cache soundness is proved
in `RunRootedCacheSound`.
