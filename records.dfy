/** What buildDNSMasqConfig and writeConfig render, as functions of the
    container list, the inspection results and the three process settings:
    the dnsmasq `address=/.<name>/<ip>` records of one container, its block
    of lines, and the whole configuration document. */
module DnsMasqRecords {
  import opened GoStrings

  datatype Option<T> = None | Some(value: T)

  /** One entry of a container's NetworkSettings.Networks map: the network's
      name and the container's IPAddress on it. A container's map is given as
      a sequence in the order Go happened to enumerate it. */
  datatype Attachment = Attachment(network: string, ipAddress: string)

  /** The part of ContainerInspect's answer the renderer reads:
      Config.Hostname and Config.Domainname. */
  datatype Inspection = Inspection(hostname: string, domainname: string)

  /** A running container from ContainerList, with the outcome of inspecting
      it: None when ContainerInspect returned an error. */
  datatype Container = Container(names: seq<string>, networks: seq<Attachment>, inspection: Option<Inspection>)

  /** The package-level settings read from DOCKER_DOMAIN,
      DOCKER_DEFAULT_NETWORK and DOCKER_STATIC_NAMES. */
  datatype Settings = Settings(domainExtension: string, defaultNetwork: string, staticNames: string)

  /** A container for which Names[0][1:] is defined: Docker lists every
      container with at least one name, and every name with a leading '/'. */
  type NamedContainer = c: Container | |c.names| > 0 && |c.names[0]| > 0
    witness Container(["/"], [], None)

  /** The container's first name without its leading '/'. */
  function ContainerName(c: NamedContainer): string
  {
    c.names[0][1..]
  }

  /** The default network actually compared against: "bridge" when none is configured. */
  function DefaultNetwork(configured: string): (r: string)
    ensures r != ""
    ensures configured == "" ==> r == "bridge"
    ensures configured != "" ==> r == configured
  {
    if configured == "" then "bridge" else configured
  }

  /** The domain extension with a leading '.', unless it is empty. */
  function NormalizeExtension(ext: string): (r: string)
    ensures r == "" || HasPrefix(r, ".")
    ensures ext == "" || HasPrefix(ext, ".") ==> r == ext
    ensures ext != "" && !HasPrefix(ext, ".") ==> r == "." + ext
  {
    if ext != "" && !HasPrefix(ext, ".") then "." + ext else ext
  }

  /** The settings as buildDNSMasqConfig leaves them. */
  function Normalized(s: Settings): Settings
  {
    Settings(NormalizeExtension(s.domainExtension), DefaultNetwork(s.defaultNetwork), s.staticNames)
  }

  /** The address every record of a container points at: the IP on the last
      enumerated network, or "" when the container has none. */
  function SelectedIp(nets: seq<Attachment>): string
  {
    if nets == [] then "" else nets[|nets| - 1].ipAddress
  }

  /** The last enumerated network whose name differs from the default,
      or "" when every network is the default one. */
  function NetworkName(nets: seq<Attachment>, default: string): string
  {
    if nets == [] then ""
    else if nets[|nets| - 1].network != default then nets[|nets| - 1].network
    else NetworkName(nets[..|nets| - 1], default)
  }

  /** NetworkName is "" when every network is the default one, and otherwise
      the name of the last enumerated network that is not. */
  lemma {:induction false} NetworkNameIsLastNonDefault(nets: seq<Attachment>, default: string)
    ensures (forall i :: 0 <= i < |nets| ==> nets[i].network == default) ==> NetworkName(nets, default) == ""
    ensures forall i :: 0 <= i < |nets| && nets[i].network != default &&
                        (forall j :: i < j < |nets| ==> nets[j].network == default)
                        ==> NetworkName(nets, default) == nets[i].network
    decreases |nets|
  {
    if nets != [] && nets[|nets| - 1].network == default {
      var pre := nets[..|nets| - 1];
      NetworkNameIsLastNonDefault(pre, default);
      assert forall i :: 0 <= i < |pre| ==> pre[i] == nets[i];
    }
  }

  /** One dnsmasq line: `address=/.<host>/<ip>`. */
  function Address(host: string, ip: string): string
  {
    "address=/." + host + "/" + ip
  }

  /** `record` is a dnsmasq line for some name, pointing at `ip`. */
  ghost predicate PointsAt(record: string, ip: string)
  {
    exists host :: record == Address(host, ip)
  }

  /** Config.Hostname, followed by "." and Config.Domainname when the latter is set. */
  function FullHostname(i: Inspection): string
  {
    if i.domainname != "" then i.hostname + "." + i.domainname else i.hostname
  }

  /** The hostname record: present only when inspection succeeded and reported a hostname. */
  function HostnameRecords(inspection: Option<Inspection>, ip: string): seq<string>
  {
    match inspection
    case None => []
    case Some(i) => if i.hostname == "" then [] else [Address(FullHostname(i), ip)]
  }

  /** The name of the primary record: `<name>.<network><ext>` when the container
      is on a non-default network, otherwise `<name><ext>`. */
  function PrimaryHost(name: string, networkName: string, ext: string): string
  {
    if networkName != "" then name + "." + networkName + ext else name + ext
  }

  /** True when a static-name entry splits on ':' into exactly `name` and one alias. */
  predicate EntryMatches(entry: string, name: string)
  {
    var block := Split(entry, ':');
    |block| == 2 && block[0] == name
  }

  /** The alias records of the static-name entries, in entry order. */
  function AliasRecords(entries: seq<string>, name: string, ip: string): (r: seq<string>)
    ensures |r| <= |entries|
  {
    if entries == [] then []
    else
      var last := entries[|entries| - 1];
      AliasRecords(entries[..|entries| - 1], name, ip)
        + (if EntryMatches(last, name) then [Address(Split(last, ':')[1], ip)] else [])
  }

  /** All records of one container, in the order they are written: hostname
      record (if any), primary record, alias records. */
  function Records(c: NamedContainer, s: Settings): seq<string>
  {
    var ip := SelectedIp(c.networks);
    var networkName := NetworkName(c.networks, DefaultNetwork(s.defaultNetwork));
    var name := ContainerName(c);
    HostnameRecords(c.inspection, ip)
      + [Address(PrimaryHost(name, networkName, NormalizeExtension(s.domainExtension)), ip)]
      + AliasRecords(Split(s.staticNames, ','), name, ip)
  }

  /** The block buildDNSMasqConfig returns: the records joined by newlines, plus a final newline. */
  function Block(c: NamedContainer, s: Settings): string
  {
    Join(Records(c, s), '\n') + "\n"
  }

  /** The strings of a list, one after another. */
  function Concat(parts: seq<string>): string
  {
    if parts == [] then "" else Concat(parts[..|parts| - 1]) + parts[|parts| - 1]
  }

  /** The lists of a list, one after another. */
  function Flatten(lists: seq<seq<string>>): seq<string>
  {
    if lists == [] then [] else Flatten(lists[..|lists| - 1]) + lists[|lists| - 1]
  }

  /** The block of each container, in list order. */
  function BlockList(cs: seq<NamedContainer>, s: Settings): (r: seq<string>)
    ensures |r| == |cs| && forall i :: 0 <= i < |cs| ==> r[i] == Block(cs[i], s)
  {
    seq(|cs|, i requires 0 <= i < |cs| => Block(cs[i], s))
  }

  /** The records of each container, in list order. */
  function RecordList(cs: seq<NamedContainer>, s: Settings): (r: seq<seq<string>>)
    ensures |r| == |cs| && forall i :: 0 <= i < |cs| ==> r[i] == Records(cs[i], s)
  {
    seq(|cs|, i requires 0 <= i < |cs| => Records(cs[i], s))
  }

  /** The blocks of all containers, in list order. */
  function Blocks(cs: seq<NamedContainer>, s: Settings): string
  {
    Concat(BlockList(cs, s))
  }

  /** The records of all containers, in list order. */
  function AllRecords(cs: seq<NamedContainer>, s: Settings): seq<string>
  {
    Flatten(RecordList(cs, s))
  }

  /** The file writeConfig produces: the header, then every container's block. */
  function Document(header: string, cs: seq<NamedContainer>, s: Settings): string
  {
    header + Blocks(cs, s)
  }

  // ---------------------------------------------------------------------
  // Settings normalisation

  lemma DefaultNetworkIdempotent(configured: string)
    ensures DefaultNetwork(DefaultNetwork(configured)) == DefaultNetwork(configured)
  {
  }

  lemma NormalizeExtensionIdempotent(ext: string)
    ensures NormalizeExtension(NormalizeExtension(ext)) == NormalizeExtension(ext)
  {
  }

  /** Normalising the settings a second time changes nothing. */
  lemma NormalizedIdempotent(s: Settings)
    ensures Normalized(Normalized(s)) == Normalized(s)
  {
    DefaultNetworkIdempotent(s.defaultNetwork);
    NormalizeExtensionIdempotent(s.domainExtension);
  }

  /** The in-place normalisation of the settings by one call does not change
      what any later call renders. */
  lemma RecordsIgnoreNormalization(c: NamedContainer, s: Settings)
    ensures Records(c, Normalized(s)) == Records(c, s)
    ensures Block(c, Normalized(s)) == Block(c, s)
  {
    DefaultNetworkIdempotent(s.defaultNetwork);
    NormalizeExtensionIdempotent(s.domainExtension);
  }

  /** Running writeConfig again with the settings an earlier run left behind
      writes the same document. */
  lemma DocumentIgnoresNormalization(header: string, cs: seq<NamedContainer>, s: Settings)
    ensures Document(header, cs, Normalized(s)) == Document(header, cs, s)
  {
    forall i | 0 <= i < |cs| {
      RecordsIgnoreNormalization(cs[i], s);
    }
    assert BlockList(cs, Normalized(s)) == BlockList(cs, s);
  }

  // ---------------------------------------------------------------------
  // Records of one container

  /** Every record of a container points at the same address, the IP of the
      last enumerated network. */
  lemma RecordsPointAtSelectedIp(c: NamedContainer, s: Settings)
    ensures forall i :: 0 <= i < |Records(c, s)| ==>
              PointsAt(Records(c, s)[i], SelectedIp(c.networks))
  {
    var ip := SelectedIp(c.networks);
    var name := ContainerName(c);
    var entries := Split(s.staticNames, ',');
    AliasRecordsPointAt(entries, name, ip);
    var recs := Records(c, s);
    var hr := HostnameRecords(c.inspection, ip);
    var pr := Address(PrimaryHost(name, NetworkName(c.networks, DefaultNetwork(s.defaultNetwork)),
                                  NormalizeExtension(s.domainExtension)), ip);
    var ar := AliasRecords(entries, name, ip);
    assert recs == hr + [pr] + ar;
    forall i | 0 <= i < |recs|
      ensures PointsAt(recs[i], ip)
    {
      if i < |hr| {
        var insp := c.inspection.value;
        assert recs[i] == Address(FullHostname(insp), ip);
      } else if i == |hr| {
        assert recs[i] == pr;
      } else {
        assert recs[i] == ar[i - |hr| - 1];
      }
    }
  }

  lemma {:induction false} AliasRecordsPointAt(entries: seq<string>, name: string, ip: string)
    ensures forall i :: 0 <= i < |AliasRecords(entries, name, ip)| ==>
              PointsAt(AliasRecords(entries, name, ip)[i], ip)
    decreases |entries|
  {
    if entries != [] {
      var pre := entries[..|entries| - 1];
      AliasRecordsPointAt(pre, name, ip);
      var last := entries[|entries| - 1];
      var r := AliasRecords(entries, name, ip);
      var rp := AliasRecords(pre, name, ip);
      assert r == rp + (if EntryMatches(last, name) then [Address(Split(last, ':')[1], ip)] else []);
      forall i | 0 <= i < |r|
        ensures PointsAt(r[i], ip)
      {
        if i < |rp| {
          assert r[i] == rp[i];
        } else {
          assert r[i] == Address(Split(last, ':')[1], ip);
        }
      }
    }
  }

  /** Exactly one primary record, preceded by a hostname record exactly when
      inspection succeeded with a non-empty hostname, and followed by the
      alias records. */
  lemma RecordLayout(c: NamedContainer, s: Settings)
    ensures var recs := Records(c, s);
            var ip := SelectedIp(c.networks);
            var networkName := NetworkName(c.networks, DefaultNetwork(s.defaultNetwork));
            var primary := Address(PrimaryHost(ContainerName(c), networkName, NormalizeExtension(s.domainExtension)), ip);
            var aliases := AliasRecords(Split(s.staticNames, ','), ContainerName(c), ip);
            if c.inspection.Some? && c.inspection.value.hostname != "" then
              |recs| == 2 + |aliases| &&
              recs[0] == Address(FullHostname(c.inspection.value), ip) &&
              recs[1] == primary && recs[2..] == aliases
            else
              |recs| == 1 + |aliases| && recs[0] == primary && recs[1..] == aliases
  {
  }

  /** A static-name entry matches exactly when it is `<name>:<alias>` with no
      further ':'; the record it contributes is then for `<alias>`. */
  lemma EntryShape(entry: string, name: string, alias: string)
    ensures Split(entry, ':') == [name, alias] <==>
            entry == name + ":" + alias && ':' !in name && ':' !in alias
  {
    if Split(entry, ':') == [name, alias] {
      JoinSplit(entry, ':');
      assert Join([name, alias], ':') == name + ":" + alias;
    }
    if entry == name + ":" + alias && ':' !in name && ':' !in alias {
      SplitJoin([name, alias], ':');
      assert Join([name, alias], ':') == name + ":" + alias;
    }
  }

  /** A record is among the alias records exactly when some entry is
      `<name>:<alias>` for that record's alias; entries naming another
      container, and entries with 1 or 3+ parts, contribute nothing. */
  lemma {:induction false} AliasRecordsMatch(entries: seq<string>, name: string, ip: string, r: string)
    ensures r in AliasRecords(entries, name, ip) <==>
            exists e :: e in entries && EntryMatches(e, name) && r == Address(Split(e, ':')[1], ip)
    decreases |entries|
  {
    if entries != [] {
      var pre := entries[..|entries| - 1];
      var last := entries[|entries| - 1];
      AliasRecordsMatch(pre, name, ip, r);
      assert entries == pre + [last];
      if exists e :: e in entries && EntryMatches(e, name) && r == Address(Split(e, ':')[1], ip) {
        var e :| e in entries && EntryMatches(e, name) && r == Address(Split(e, ':')[1], ip);
        if e != last {
          assert e in pre;
        }
      }
    }
  }

  /** The entries are handled one at a time, in order: the alias records of
      two runs of entries are those of the first run, then those of the second. */
  lemma {:induction false} AliasRecordsAppend(a: seq<string>, b: seq<string>, name: string, ip: string)
    ensures AliasRecords(a + b, name, ip) == AliasRecords(a, name, ip) + AliasRecords(b, name, ip)
    decreases |b|
  {
    if b == [] {
      assert a + b == a;
    } else {
      var pre := b[..|b| - 1];
      AliasRecordsAppend(a, pre, name, ip);
      assert (a + b)[..|a + b| - 1] == a + pre;
      assert (a + b)[|a + b| - 1] == b[|b| - 1];
    }
  }

  /** One entry adds one record, for its alias, when it matches this
      container, and no record otherwise. */
  lemma AliasRecordsSingle(entry: string, name: string, ip: string)
    ensures AliasRecords([entry], name, ip) ==
            if EntryMatches(entry, name) then [Address(Split(entry, ':')[1], ip)] else []
  {
    assert [entry][..0] == [];
  }

  /** The positions of the entries that match this container. */
  ghost function MatchingPositions(entries: seq<string>, name: string): set<int>
  {
    set i | 0 <= i < |entries| && EntryMatches(entries[i], name)
  }

  /** The matching positions of a list with one more entry. */
  lemma MatchingPositionsSnoc(entries: seq<string>, name: string)
    requires entries != []
    ensures var n := |entries| - 1;
            MatchingPositions(entries, name) ==
            MatchingPositions(entries[..n], name) + (if EntryMatches(entries[n], name) then {n} else {})
  {
    var n := |entries| - 1;
    var pre := entries[..n];
    forall i | i in MatchingPositions(entries, name) && i < n
      ensures i in MatchingPositions(pre, name)
    {
      assert pre[i] == entries[i];
    }
  }

  /** One alias record per matching entry: duplicate entries are not merged. */
  lemma {:induction false} AliasRecordsCount(entries: seq<string>, name: string, ip: string)
    ensures |AliasRecords(entries, name, ip)| == |MatchingPositions(entries, name)|
    decreases |entries|
  {
    if entries == [] {
      assert MatchingPositions(entries, name) == {};
    } else {
      var n := |entries| - 1;
      AliasRecordsCount(entries[..n], name, ip);
      MatchingPositionsSnoc(entries, name);
      assert n !in MatchingPositions(entries[..n], name);
    }
  }

  /** An alias declared only for other containers produces no record. */
  lemma NoAliasWithoutMatch(entries: seq<string>, name: string, ip: string)
    requires forall e :: e in entries ==> !EntryMatches(e, name)
    ensures AliasRecords(entries, name, ip) == []
  {
    if AliasRecords(entries, name, ip) != [] {
      var r := AliasRecords(entries, name, ip)[0];
      AliasRecordsMatch(entries, name, ip, r);
    }
  }

  /** The primary record written out as one concatenation. */
  lemma PrimaryRecordText(name: string, networkName: string, ext: string, ip: string)
    ensures networkName != "" ==>
              Address(PrimaryHost(name, networkName, ext), ip) == "address=/." + name + "." + networkName + ext + "/" + ip
    ensures networkName == "" ==>
              Address(PrimaryHost(name, networkName, ext), ip) == "address=/." + name + ext + "/" + ip
  {
  }

  /** Two records for the same name are equal exactly when their addresses are. */
  lemma AddressInjective(host: string, a: string, b: string)
    ensures Address(host, a) == Address(host, b) <==> a == b
  {
    var p := "address=/." + host + "/";
    assert Address(host, a) == p + a && Address(host, a)[|p|..] == a;
    assert Address(host, b) == p + b && Address(host, b)[|p|..] == b;
  }

  // ---------------------------------------------------------------------
  // The block of one container

  /** A block is never empty and ends with a newline. */
  lemma BlockEndsInNewline(c: NamedContainer, s: Settings)
    ensures |Block(c, s)| > 0 && Block(c, s)[|Block(c, s)| - 1] == '\n'
  {
  }

  /** The lines of a block are exactly the container's records, when no record
      holds a newline of its own. */
  lemma BlockLines(c: NamedContainer, s: Settings)
    requires forall i :: 0 <= i < |Records(c, s)| ==> '\n' !in Records(c, s)[i]
    ensures var b := Block(c, s); Split(b[..|b| - 1], '\n') == Records(c, s)
  {
    var recs := Records(c, s);
    var b := Block(c, s);
    assert b[..|b| - 1] == Join(recs, '\n');
    SplitJoin(recs, '\n');
  }

  // ---------------------------------------------------------------------
  // The document

  lemma {:induction false} ConcatAppend(a: seq<string>, b: seq<string>)
    ensures Concat(a + b) == Concat(a) + Concat(b)
    decreases |b|
  {
    if b == [] {
      assert a + b == a;
    } else {
      ConcatAppend(a, b[..|b| - 1]);
      assert (a + b)[..|a + b| - 1] == a + b[..|b| - 1];
    }
  }

  /** The blocks of a concatenated list are the concatenated blocks. */
  lemma BlocksAppend(a: seq<NamedContainer>, b: seq<NamedContainer>, s: Settings)
    ensures Blocks(a + b, s) == Blocks(a, s) + Blocks(b, s)
  {
    assert BlockList(a + b, s) == BlockList(a, s) + BlockList(b, s);
    ConcatAppend(BlockList(a, s), BlockList(b, s));
  }

  /** No container is skipped: each container's block sits in the document
      between the blocks of the containers listed before it and those after. */
  lemma ContainerBlockInDocument(header: string, cs: seq<NamedContainer>, s: Settings, k: nat)
    requires k < |cs|
    ensures Document(header, cs, s) ==
            header + Blocks(cs[..k], s) + Block(cs[k], s) + Blocks(cs[k + 1..], s)
  {
    BlocksAround(cs, s, k);
    Regroup(header, Blocks(cs[..k], s), Block(cs[k], s), Blocks(cs[k + 1..], s));
  }

  lemma Regroup(h: string, x: string, y: string, z: string)
    ensures h + (x + y + z) == h + x + y + z
  {
  }

  lemma BlocksAround(cs: seq<NamedContainer>, s: Settings, k: nat)
    requires k < |cs|
    ensures Blocks(cs, s) == Blocks(cs[..k], s) + Block(cs[k], s) + Blocks(cs[k + 1..], s)
  {
    SplitAt(cs, k);
    BlocksAppend(cs[..k] + [cs[k]], cs[k + 1..], s);
    BlocksAppend(cs[..k], [cs[k]], s);
    BlocksSingle(cs[k], s);
  }

  lemma SplitAt<T>(xs: seq<T>, k: nat)
    requires k < |xs|
    ensures xs == xs[..k] + [xs[k]] + xs[k + 1..]
  {
  }

  lemma BlocksSingle(c: NamedContainer, s: Settings)
    ensures Blocks([c], s) == Block(c, s)
  {
    assert BlockList([c], s) == [Block(c, s)];
    ConcatSingle(Block(c, s));
  }

  lemma ConcatSingle(x: string)
    ensures Concat([x]) == x
  {
    assert [x][..0] == [];
  }

  /** Writing one more container's block extends the document by that block. */
  lemma DocumentExtend(header: string, cs: seq<NamedContainer>, i: nat, s: Settings)
    requires i < |cs|
    ensures Document(header, cs[..i + 1], s) == Document(header, cs[..i], s) + Block(cs[i], s)
  {
    assert cs[..i + 1] == cs[..i] + [cs[i]];
    BlocksAppend(cs[..i], [cs[i]], s);
    BlocksSingle(cs[i], s);
  }

  /** Each list of lines joined by newlines and closed by a newline. */
  function Terminated(ls: seq<seq<string>>): (r: seq<string>)
    ensures |r| == |ls| && forall i :: 0 <= i < |ls| ==> r[i] == Join(ls[i], '\n') + "\n"
  {
    seq(|ls|, i requires 0 <= i < |ls| => Join(ls[i], '\n') + "\n")
  }

  /** Newline-terminated groups of lines, written one after another, are the
      newline-terminated join of all the lines. */
  lemma {:induction false} ConcatTerminated(ls: seq<seq<string>>)
    requires ls != [] && forall i :: 0 <= i < |ls| ==> ls[i] != []
    ensures Flatten(ls) != []
    ensures Concat(Terminated(ls)) == Join(Flatten(ls), '\n') + "\n"
    decreases |ls|
  {
    var pre, last := ls[..|ls| - 1], ls[|ls| - 1];
    var t := Terminated(ls);
    assert t[..|t| - 1] == Terminated(pre);
    if pre == [] {
      assert Flatten(pre) == [];
      assert Concat(Terminated(pre)) == "";
      assert Flatten(ls) == last;
    } else {
      ConcatTerminated(pre);
      JoinAppend(Flatten(pre), last, '\n');
    }
  }

  /** After the header the document is every container's records, in list
      order, one per line. */
  lemma BlocksAreRecordLines(cs: seq<NamedContainer>, s: Settings)
    requires cs != []
    ensures AllRecords(cs, s) != []
    ensures Blocks(cs, s) == Join(AllRecords(cs, s), '\n') + "\n"
  {
    var ls := RecordList(cs, s);
    assert BlockList(cs, s) == Terminated(ls);
    ConcatTerminated(ls);
  }

  /** The lines after the header are exactly the records of all containers,
      when no record holds a newline of its own. */
  lemma DocumentLines(header: string, cs: seq<NamedContainer>, s: Settings)
    requires cs != []
    requires forall i :: 0 <= i < |AllRecords(cs, s)| ==> '\n' !in AllRecords(cs, s)[i]
    ensures var d := Document(header, cs, s);
            |header| < |d| && d[..|header|] == header && d[|d| - 1] == '\n' &&
            Split(d[|header|..|d| - 1], '\n') == AllRecords(cs, s)
  {
    BlocksAreRecordLines(cs, s);
    var d := Document(header, cs, s);
    var j := Join(AllRecords(cs, s), '\n');
    assert d == header + j + "\n";
    assert d[|header|..|d| - 1] == j;
    SplitJoin(AllRecords(cs, s), '\n');
  }

  // ---------------------------------------------------------------------
  // Behaviour on concrete containers

  /** An unset DOCKER_STATIC_NAMES is one empty entry, which matches no container. */
  lemma NoStaticNames(name: string, ip: string)
    ensures AliasRecords(Split("", ','), name, ip) == []
  {
    assert Split("", ',') == [""];
    assert Split("", ':') == [""];
    assert [""][..0] == [];
  }

  /** The block of a container whose records are one or two lines. */
  lemma BlockOfRecords(c: NamedContainer, s: Settings, recs: seq<string>)
    requires Records(c, s) == recs && 1 <= |recs| <= 2
    ensures Block(c, s) == if |recs| == 1 then recs[0] + "\n" else recs[0] + "\n" + recs[1] + "\n"
  {
    if |recs| == 2 {
      assert recs[1..] == [recs[1]];
      assert Join(recs, '\n') == recs[0] + "\n" + recs[1];
    }
  }

  /** A container attached only to the default network, with no hostname and
      no static names, has the single record `<name><ext>`. */
  lemma DefaultNetworkOnly(c: NamedContainer, s: Settings, ip: string)
    requires c.networks == [Attachment(DefaultNetwork(s.defaultNetwork), ip)]
    requires c.inspection.None? || c.inspection.value.hostname == ""
    requires s.staticNames == ""
    ensures Block(c, s) == Address(ContainerName(c) + NormalizeExtension(s.domainExtension), ip) + "\n"
  {
    NoStaticNames(ContainerName(c), ip);
    assert NetworkName(c.networks, DefaultNetwork(s.defaultNetwork)) == "" by {
      assert c.networks[..0] == [];
    }
    assert SelectedIp(c.networks) == ip;
    assert HostnameRecords(c.inspection, ip) == [];
    assert Records(c, s) == [Address(ContainerName(c) + NormalizeExtension(s.domainExtension), ip)];
    BlockOfRecords(c, s, [Address(ContainerName(c) + NormalizeExtension(s.domainExtension), ip)]);
  }

  /** A container with a hostname and domain, attached to a second network
      enumerated before the default one: the `<hostname>.<domain>` record, then
      `<name>.<network><ext>`, both at the default network's address. */
  lemma HostnameAndSecondNetwork(c: NamedContainer, s: Settings, network: string, otherIp: string, ip: string)
    requires network != DefaultNetwork(s.defaultNetwork) && network != ""
    requires c.networks == [Attachment(network, otherIp), Attachment(DefaultNetwork(s.defaultNetwork), ip)]
    requires c.inspection.Some? && c.inspection.value.hostname != "" && c.inspection.value.domainname != ""
    requires s.staticNames == ""
    ensures var i := c.inspection.value;
            Block(c, s) ==
              Address(i.hostname + "." + i.domainname, ip) + "\n" +
              Address(ContainerName(c) + "." + network + NormalizeExtension(s.domainExtension), ip) + "\n"
  {
    var i := c.inspection.value;
    assert NetworkName(c.networks, DefaultNetwork(s.defaultNetwork)) == network by {
      assert c.networks[..1] == [Attachment(network, otherIp)];
    }
    NoStaticNames(ContainerName(c), ip);
    BlockOfRecords(c, s, [Address(i.hostname + "." + i.domainname, ip),
                          Address(ContainerName(c) + "." + network + NormalizeExtension(s.domainExtension), ip)]);
  }

  /** The address depends on the order in which the network map is
      enumerated: with the default network enumerated first, the record points
      at the other network's address instead. */
  lemma AddressDependsOnEnumerationOrder(c: NamedContainer, s: Settings, network: string, otherIp: string, ip: string)
    requires network != DefaultNetwork(s.defaultNetwork) && network != ""
    requires c.networks == [Attachment(DefaultNetwork(s.defaultNetwork), ip), Attachment(network, otherIp)]
    requires c.inspection.None?
    requires s.staticNames == ""
    ensures Block(c, s) ==
              Address(ContainerName(c) + "." + network + NormalizeExtension(s.domainExtension), otherIp) + "\n"
  {
    NoStaticNames(ContainerName(c), otherIp);
    BlockOfRecords(c, s, [Address(ContainerName(c) + "." + network + NormalizeExtension(s.domainExtension), otherIp)]);
  }

  /** The same container with its two attachments enumerated in the two
      possible orders: the blocks are equal exactly when the two attachments
      have the same address, when no record holds a newline of its own. */
  lemma EnumerationOrderChangesBlock(c1: NamedContainer, c2: NamedContainer, s: Settings,
                                     network: string, ip: string, otherIp: string)
    requires network != DefaultNetwork(s.defaultNetwork)
    requires c1.networks == [Attachment(DefaultNetwork(s.defaultNetwork), ip), Attachment(network, otherIp)]
    requires c2.networks == [Attachment(network, otherIp), Attachment(DefaultNetwork(s.defaultNetwork), ip)]
    requires c1.names == c2.names && c1.inspection == c2.inspection
    requires forall i :: 0 <= i < |Records(c1, s)| ==> '\n' !in Records(c1, s)[i]
    requires forall i :: 0 <= i < |Records(c2, s)| ==> '\n' !in Records(c2, s)[i]
    ensures Block(c1, s) == Block(c2, s) <==> ip == otherIp
  {
    var d := DefaultNetwork(s.defaultNetwork);
    assert NetworkName(c1.networks, d) == network;
    assert NetworkName(c2.networks, d) == network by {
      assert c2.networks[..1] == [Attachment(network, otherIp)];
    }
    assert SelectedIp(c1.networks) == otherIp;
    assert SelectedIp(c2.networks) == ip;
    if Block(c1, s) == Block(c2, s) {
      BlockLines(c1, s);
      BlockLines(c2, s);
      var k := |HostnameRecords(c1.inspection, otherIp)|;
      assert |HostnameRecords(c2.inspection, ip)| == k;
      var h := PrimaryHost(ContainerName(c1), network, NormalizeExtension(s.domainExtension));
      assert Records(c1, s)[k] == Address(h, otherIp);
      assert Records(c2, s)[k] == Address(h, ip);
      AddressInjective(h, otherIp, ip);
    }
  }

  /** A single static name `<name>:<alias>` for this container adds one
      record for `<alias>` after the primary one. */
  lemma OneStaticName(c: NamedContainer, s: Settings, alias: string)
    requires s.staticNames == ContainerName(c) + ":" + alias
    requires ':' !in ContainerName(c) && ':' !in alias && ',' !in ContainerName(c) && ',' !in alias
    ensures var ip := SelectedIp(c.networks);
            Records(c, s)[|Records(c, s)| - 1] == Address(alias, ip)
    ensures |Records(c, s)| == 2 + |HostnameRecords(c.inspection, SelectedIp(c.networks))|
  {
    var ip := SelectedIp(c.networks);
    var entry := s.staticNames;
    assert ',' !in entry;
    SplitFree(entry, ',');
    EntryShape(entry, ContainerName(c), alias);
    assert [entry][..0] == [];
    assert AliasRecords([entry], ContainerName(c), ip) == [Address(alias, ip)];
  }
}
