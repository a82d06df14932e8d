# docker-domains: the dnsmasq record renderer

docker-domains keeps a dnsmasq configuration in step with the running Docker
containers, so that each container can be reached by name. This project models
the part that decides what that configuration says. It proves properties of
that model.

- `buildDNSMasqConfig` turns one running container into its block of dnsmasq
  lines, `address=/.<name>/<ip>`. It takes the container's network map, its
  first name, and the hostname and domain name that inspection reported. It
  also reads three package-level settings: the domain extension
  (`DOCKER_DOMAIN`), the default network name (`DOCKER_DEFAULT_NETWORK`) and
  the static names (`DOCKER_STATIC_NAMES`, `name:alias[,name:alias...]`).
- `writeConfig` writes a fixed header, then the block of every listed
  container, in list order.

The files:

- `go_strings.dfy` (module `GoStrings`): Go's `strings.Split`, `strings.Join`
  and `strings.HasPrefix` for one-character separators. Includes the round
  trips between Split and Join.
- `records.dfy` (module `DnsMasqRecords`): the inputs as datatypes, and what
  gets rendered, as functions: `Records` and `Block` for one container,
  `Document` for the file. The lemmas about them are here too.
- `docker_domains.dfy` (module `DockerDomains`): the two Go functions as
  methods with the source's loops. They are proved equal to `Block` and
  `Document`.

How the inputs are represented:

- A container's `NetworkSettings.Networks` map is a sequence of
  `Attachment(network, ipAddress)`. Its order is the order in which Go
  happened to enumerate the map, and no canonical order is assumed.
- The result of `ContainerInspect` is an `Option<Inspection>`. `None` means
  inspection failed.
- The header is an opaque string.
- The source changes two package variables in place: it sets an empty default
  network to `"bridge"`, and it gives the extension a leading `.`. The methods
  take these settings as a `Settings` value and return the updated value.
  `WriteConfig` passes each call's result on to the next call, as the program
  does. `RecordsIgnoreNormalization` proves that this makes no difference to
  any later block. The program renders the whole file again on every container
  event. `DocumentIgnoresNormalization` proves that a later run, with the
  settings an earlier run left behind, writes the same document for the same
  containers.

Where the code does something other than its names and comments suggest, the
model follows the code. Examples are the variable `defaultNetworkName`, the
comment at main.go:31 ("get the network ip") and the `err` test in the write
loop:

- The address in every record is the IP of the last enumerated network, not
  the IP on the default network. So the records depend on Go's unspecified map
  order. `EnumerationOrderChangesBlock` takes one container on the default
  network and one other network, with the two attachments in both orders. The
  two blocks are equal exactly when the two attachments have the same IP.
- A container on the default network plus one other network gets
  `<hostname>.<domain>` and `<name>.<network><ext>` at the default network's
  address when the default network is enumerated last
  (`HostnameAndSecondNetwork`). In the other order, every record of the
  container is at the other network's address (`RecordsPointAtSelectedIp`),
  and its block differs whenever the two IPs differ
  (`EnumerationOrderChangesBlock`). `AddressDependsOnEnumerationOrder` writes
  out that block for a container without an inspection result.
- No container is ever skipped. The `err` tested inside the loop (line 134) is
  the earlier, necessarily nil, result of `os.Create` (line 123).
  `WriteConfig` writes every block.

## Model

| member | source | states |
|---|---|---|
| `GoStrings.Split` | cmd/docker-domains/main.go:74-75 | `strings.Split` on one character: never empty, one more piece than separators, no piece contains the separator |
| `GoStrings.Join` | cmd/docker-domains/main.go:82 | renders `strings.Join` with a one-character separator: the pieces with the separator between neighbours, `""` for no pieces |
| `GoStrings.HasPrefix` | cmd/docker-domains/main.go:61 | renders `strings.HasPrefix`: the string starts with the prefix |
| `GoStrings.JoinSplit` | cmd/docker-domains/main.go:74-75 | joining the pieces of a split with the same separator gives back the string |
| `GoStrings.SplitJoin` | cmd/docker-domains/main.go:82 | splitting the join of separator-free pieces gives back exactly those pieces |
| `DnsMasqRecords.ContainerName` | cmd/docker-domains/main.go:45 | renders `container.Names[0][1:]`: the first name without its first character |
| `DnsMasqRecords.DefaultNetwork` | cmd/docker-domains/main.go:34-36 | an empty default network name is treated as `"bridge"`; any other is used unchanged; the result is never empty |
| `DnsMasqRecords.DefaultNetworkIdempotent` | cmd/docker-domains/main.go:34-36 | defaulting the network name twice is the same as once |
| `DnsMasqRecords.NormalizeExtension` | cmd/docker-domains/main.go:61-63 | a non-empty extension without a leading `.` gets one prepended; an empty one or one starting with `.` is unchanged; the result is empty or starts with `.` |
| `DnsMasqRecords.NormalizeExtensionIdempotent` | cmd/docker-domains/main.go:61-63 | normalising the extension twice is the same as once |
| `DnsMasqRecords.Normalized` | cmd/docker-domains/main.go:34-63 | renders the package variables as a call leaves them: the default network defaulted, the extension normalised, the static names unchanged |
| `DnsMasqRecords.NormalizedIdempotent` | cmd/docker-domains/main.go:34-63 | the settings as one call leaves them are left unchanged by the next call |
| `DnsMasqRecords.RecordsIgnoreNormalization` | cmd/docker-domains/main.go:34-63 | rendering with the normalised settings gives the same records and block as rendering with the original ones |
| `DnsMasqRecords.DocumentIgnoresNormalization` | cmd/docker-domains/main.go:128-139 | writing the file again with the settings an earlier run left behind gives the same document for the same containers |
| `DnsMasqRecords.SelectedIp` | cmd/docker-domains/main.go:31-42 | renders the address the network loop leaves in `ip`: `""` with no network, else the last enumerated network's address |
| `DnsMasqRecords.NetworkName` | cmd/docker-domains/main.go:36-43 | renders the network name the loop leaves: the last enumerated network that is not the default one, else `""` |
| `DnsMasqRecords.NetworkNameIsLastNonDefault` | cmd/docker-domains/main.go:37-43 | the network name is `""` when every enumerated network is the default one, and otherwise the name of the last enumerated network that is not the default |
| `DnsMasqRecords.Address` | cmd/docker-domains/main.go:56-77 | renders one dnsmasq line, `address=/.<host>/<ip>`, as lines 56, 68, 70 and 77 build it |
| `DnsMasqRecords.FullHostname` | cmd/docker-domains/main.go:51-55 | renders the hostname record's name: `hostname.domain` when the domain is set, else the hostname |
| `DnsMasqRecords.HostnameRecords` | cmd/docker-domains/main.go:46-58 | renders the hostname record: none when inspection failed or the hostname is empty, else one for `hostname.domain`, or `hostname` with no domain |
| `DnsMasqRecords.PrimaryHost` | cmd/docker-domains/main.go:65-71 | renders the primary record's name: `<name>.<network><ext>` with a non-default network, else `<name><ext>` |
| `DnsMasqRecords.Records` | cmd/docker-domains/main.go:45-79 | renders the `hosts` list: the hostname record, then the primary record, then the alias records, all at `SelectedIp` |
| `DnsMasqRecords.RecordsPointAtSelectedIp` | cmd/docker-domains/main.go:32-79 | every record of a container is `address=/.<something>/<ip>` with the same ip: that of the last enumerated network, or `""` with no network |
| `DnsMasqRecords.RecordLayout` | cmd/docker-domains/main.go:45-79 | exactly one primary record; a hostname record comes before it exactly when inspection succeeded with a non-empty hostname, named `hostname.domain` or `hostname`; the alias records come after it |
| `DnsMasqRecords.PrimaryRecordText` | cmd/docker-domains/main.go:67-71 | the primary record is `address=/.<name>.<network><ext>/<ip>` with a non-default network, else `address=/.<name><ext>/<ip>` |
| `DnsMasqRecords.AddressInjective` | cmd/docker-domains/main.go:67-71 | two records for the same name are equal if and only if their ips are equal |
| `DnsMasqRecords.EntryMatches` | cmd/docker-domains/main.go:75-76 | renders the entry test: the entry splits on `:` into exactly two parts and the first is the container's name |
| `DnsMasqRecords.EntryShape` | cmd/docker-domains/main.go:74-76 | an entry splits on `:` into exactly `[name, alias]` if and only if it is `name:alias` and neither part contains `:` |
| `DnsMasqRecords.AliasRecords` | cmd/docker-domains/main.go:74-79 | renders the alias records, one per matching entry in entry order; never more records than entries |
| `DnsMasqRecords.AliasRecordsMatch` | cmd/docker-domains/main.go:74-79 | a record is an alias record if and only if some entry splits into exactly two parts, the first is the container's name, and the record is for the second part |
| `DnsMasqRecords.AliasRecordsAppend` | cmd/docker-domains/main.go:74-79 | entries are handled one at a time in order: the alias records of two runs of entries are the first run's followed by the second's |
| `DnsMasqRecords.AliasRecordsSingle` | cmd/docker-domains/main.go:75-78 | one entry adds exactly one record, for its second part, when it splits into two parts and the first is the container's name, and adds nothing otherwise |
| `DnsMasqRecords.AliasRecordsCount` | cmd/docker-domains/main.go:74-79 | there are as many alias records as matching entries, so duplicate entries give duplicate records |
| `DnsMasqRecords.NoAliasWithoutMatch` | cmd/docker-domains/main.go:74-79 | when no entry names this container, no alias record is produced |
| `DnsMasqRecords.NoStaticNames` | cmd/docker-domains/main.go:74-79 | an empty static-names string, which splits to one empty entry, adds no record |
| `DnsMasqRecords.OneStaticName` | cmd/docker-domains/main.go:74-79 | a single `name:alias` entry for this container adds one record, for the alias, after the primary one |
| `DnsMasqRecords.Block` | cmd/docker-domains/main.go:82-83 | renders the returned block: the records joined by newlines, plus a final newline |
| `DnsMasqRecords.BlockEndsInNewline` | cmd/docker-domains/main.go:82-83 | a block is never empty and ends with a newline |
| `DnsMasqRecords.BlockLines` | cmd/docker-domains/main.go:82-83 | without the final newline, a block's lines are exactly the container's records, in order |
| `DnsMasqRecords.DefaultNetworkOnly` | cmd/docker-domains/main.go:65-71 | a container only on the default network, with no hostname and no static names, has the single line `address=/.<name><ext>/<ip>` |
| `DnsMasqRecords.HostnameAndSecondNetwork` | cmd/docker-domains/main.go:37-71 | a container with hostname and domain and a second network enumerated before the default gets the `hostname.domain` record, then `<name>.<network><ext>`, both at the default network's ip |
| `DnsMasqRecords.AddressDependsOnEnumerationOrder` | cmd/docker-domains/main.go:38-43 | with the default network enumerated first, the record for `<name>.<network><ext>` points at the other network's ip |
| `DnsMasqRecords.EnumerationOrderChangesBlock` | cmd/docker-domains/main.go:37-43 | for a container on the default network and one other network, the blocks for the two enumeration orders are equal if and only if the two attachments have the same ip |
| `DnsMasqRecords.Document` | cmd/docker-domains/main.go:128-139 | renders the written file: the header, then every listed container's block in list order |
| `DnsMasqRecords.BlocksAppend` | cmd/docker-domains/main.go:129-139 | the blocks of two concatenated container lists are the two lists' blocks, concatenated |
| `DnsMasqRecords.ContainerBlockInDocument` | cmd/docker-domains/main.go:128-139 | every listed container's block appears in the document, after the header and the blocks of the containers before it and before those after it |
| `DnsMasqRecords.BlocksAreRecordLines` | cmd/docker-domains/main.go:128-139 | for a non-empty list, the blocks are all containers' records in list order, joined by newlines and ending in a newline |
| `DnsMasqRecords.DocumentLines` | cmd/docker-domains/main.go:128-139 | the document starts with the header and ends with a newline, and the lines after the header are exactly all containers' records, in order |
| `DockerDomains.SelectNetwork` | cmd/docker-domains/main.go:32-43 | the loop over the network map yields the last enumerated network's ip and the last enumerated non-default network name |
| `DockerDomains.AppendAliases` | cmd/docker-domains/main.go:74-79 | the loop over the static names appends the alias records, in entry order, to the records so far |
| `DockerDomains.BuildDnsMasqConfig` | cmd/docker-domains/main.go:30-85 | returns the container's block (records joined by newlines plus a final newline) and the settings with the default network and extension normalised |
| `DockerDomains.WriteConfig` | cmd/docker-domains/main.go:128-139 | produces the header followed by every container's block in list order; the settings are normalised once any container was rendered |

## Left out

- The mutex, the 200 ms settling delay, the signal handler, the event loop and
  the stop channel (main.go:23, 109-113, 171-205). These are concurrency,
  timing and process lifecycle.
- The Docker client calls `ContainerList`, `ContainerInspect`, `Events` and
  `NewEnvClient`. Their results are inputs: the container list, one
  `Option<Inspection>` per container, and the network map as a sequence.
- File I/O: `os.Create`, `WriteString`, `Close` and `RemoveAll`. The document
  is returned as a string. Also left out: `log.Fatal` when listing containers
  or creating the file fails (main.go:119-126), the deferred cache refresh,
  `cleanDnsConfFiles`, `onStop`, flag parsing in `main`, and the
  `fmt.Println` of an inspection error or of a container's name and state.
- Reading `DOCKER_DOMAIN`, `DOCKER_DEFAULT_NETWORK` and `DOCKER_STATIC_NAMES`
  from the environment. They are the fields of `Settings`.
- dnsmasq/systemd-resolved.go is not part of this model. It writes files and
  runs `selinuxenabled`, `restorecon`, `systemd-resolve` and `systemctl`. The
  text it writes is a two-line `[Resolve]` file and, at its lines 38-43, a
  `dnsmasq.conf` holding `DNSMasqHeaderConfig`. That constant is the header
  that the model takes as an opaque string.
- `Names[0][1:]` panics when a container has no name or an empty first name.
  The model requires both (the type `NamedContainer`), since Docker always
  lists a name starting with `/`.
- Go strings are byte strings and `[1:]` drops one byte. The model uses
  `seq<char>` and drops one character; the two agree for the ASCII `/` that
  starts every Docker name.
- The network map's keys are unique in Go; the model does not require the
  sequence's network names to be distinct, and none of its results depend on
  that.
- `BlockLines`, `DocumentLines` and `EnumerationOrderChangesBlock` assume that
  no record contains a newline of its own. Without that assumption the lines cannot be read back as records.
