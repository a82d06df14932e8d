/** The record renderer of docker-domains, step by step as the program runs
    it. The package-level settings that the program normalises in place are
    passed in and handed back as a `Settings` value. */
module DockerDomains {
  import opened GoStrings
  import opened DnsMasqRecords

  /** The walk over a container's network map in buildDNSMasqConfig: the
      address of the last enumerated network, and the last enumerated network
      that is not the default one ("" when there is none). */
  method SelectNetwork(networks: seq<Attachment>, defaultNetwork: string) returns (ip: string, networkName: string)
    ensures ip == SelectedIp(networks)
    ensures networkName == NetworkName(networks, defaultNetwork)
  {
    ip := "";
    networkName := "";
    for i := 0 to |networks|
      invariant ip == SelectedIp(networks[..i])
      invariant networkName == NetworkName(networks[..i], defaultNetwork)
    {
      ip := networks[i].ipAddress;
      if networks[i].network != defaultNetwork {
        networkName := networks[i].network;
      }
      assert networks[..i + 1][..i] == networks[..i];
    }
    assert networks[..|networks|] == networks;
  }

  /** The walk over the comma-separated static names in buildDNSMasqConfig:
      one record per `<name>:<alias>` entry, appended in entry order. */
  method AppendAliases(hosts: seq<string>, staticNames: string, name: string, ip: string) returns (hosts': seq<string>)
    ensures hosts' == hosts + AliasRecords(Split(staticNames, ','), name, ip)
  {
    hosts' := hosts;
    var entries := Split(staticNames, ',');
    for k := 0 to |entries|
      invariant hosts' == hosts + AliasRecords(entries[..k], name, ip)
    {
      var block := Split(entries[k], ':');
      if |block| == 2 && block[0] == name {
        hosts' := hosts' + ["address=/." + block[1] + "/" + ip];
      }
      assert entries[..k + 1][..k] == entries[..k];
    }
    assert entries[..|entries|] == entries;
  }

  /** buildDNSMasqConfig: the dnsmasq lines for one running container.
      Returns the block and the settings as the call leaves them (the
      default network set to "bridge" when empty, the extension given its
      leading '.'). */
  method BuildDnsMasqConfig(c: NamedContainer, settings: Settings) returns (config: string, settings': Settings)
    ensures config == Block(c, settings)
    ensures settings' == Normalized(settings)
  {
    var hosts: seq<string> := [];
    var defaultNetwork := settings.defaultNetwork;
    if defaultNetwork == "" {
      defaultNetwork := "bridge";
    }
    var ip, networkName := SelectNetwork(c.networks, defaultNetwork);

    var name := c.names[0][1..];
    match c.inspection {
      case None =>
      case Some(inspect) =>
        var domain := inspect.domainname;
        var hostname := inspect.hostname;
        if hostname != "" {
          if domain != "" {
            hostname := hostname + "." + domain;
          }
          hosts := hosts + ["address=/." + hostname + "/" + ip];
        }
    }
    assert hosts == HostnameRecords(c.inspection, ip);

    var extension := settings.domainExtension;
    if extension != "" && !HasPrefix(extension, ".") {
      extension := "." + extension;
    }

    if networkName != "" {
      hosts := hosts + ["address=/." + name + "." + networkName + extension + "/" + ip];
    } else {
      hosts := hosts + ["address=/." + name + extension + "/" + ip];
    }
    PrimaryRecordText(name, networkName, extension, ip);

    hosts := AppendAliases(hosts, settings.staticNames, name, ip);
    assert hosts == Records(c, settings);

    config := Join(hosts, '\n') + "\n";
    settings' := Settings(extension, defaultNetwork, settings.staticNames);
  }

  /** The document writeConfig writes: the header, then the block of every
      listed container in list order. Every call to buildDNSMasqConfig sees
      the settings as the previous call left them. */
  method WriteConfig(header: string, containers: seq<NamedContainer>, settings: Settings)
    returns (document: string, settings': Settings)
    ensures document == Document(header, containers, settings)
    ensures settings' == if containers == [] then settings else Normalized(settings)
  {
    document := header;
    settings' := settings;
    for i := 0 to |containers|
      invariant document == Document(header, containers[..i], settings)
      invariant settings' == if i == 0 then settings else Normalized(settings)
    {
      var config;
      config, settings' := BuildDnsMasqConfig(containers[i], settings');
      RecordsIgnoreNormalization(containers[i], settings);
      NormalizedIdempotent(settings);
      assert config == Block(containers[i], settings);
      DocumentExtend(header, containers, i, settings);
      document := document + config;
    }
    assert containers[..|containers|] == containers;
  }
}
