/**
 * The connection dialog (src/components/ConnectionModal.tsx): a map of saved connections by
 * name, the selected name, the form's current configuration and a status line.
 */
module ConnectionModal {
  import opened JsStrings

  datatype Config = Config(name: string, host: string, user: string, password: string,
                           database: string, port: string, encrypt: bool)

  datatype StatusKind = NoStatus | Succeeded | Failed

  datatype Status = Status(kind: StatusKind, msg: string)

  const InitialConfig := Config("", "localhost", "root", "", "", "3306", false)

  /** The host after `/^https?:\/\//` is removed: at most one leading scheme goes. */
  function SchemeStripped(host: string): (rest: string)
    ensures StartsWith(host, "http://") ==> host == "http://" + rest
    ensures StartsWith(host, "https://") ==> host == "https://" + rest
    ensures !StartsWith(host, "http://") && !StartsWith(host, "https://") ==> rest == host
  {
    SchemesExclusive(host);
    if StartsWith(host, "http://") then host[7..]
    else if StartsWith(host, "https://") then host[8..]
    else host
  }

  /** Then `/\/$/` removed: one trailing slash of what is left goes, and nothing else. */
  function CleanHost(host: string): (r: string)
    ensures EndsWith(SchemeStripped(host), "/") ==> SchemeStripped(host) == r + "/"
    ensures !EndsWith(SchemeStripped(host), "/") ==> r == SchemeStripped(host)
    ensures StartsWith(host, "http://") ==> host == "http://" + r || host == "http://" + r + "/"
    ensures StartsWith(host, "https://") ==> host == "https://" + r || host == "https://" + r + "/"
    ensures !StartsWith(host, "http://") && !StartsWith(host, "https://") ==> host == r || host == r + "/"
  {
    var rest := SchemeStripped(host);
    var r := if EndsWith(rest, "/") then rest[..|rest| - 1] else rest;
    assert rest == r + (if EndsWith(rest, "/") then "/" else "");
    r
  }

  /** A host cannot start with both schemes. */
  lemma SchemesExclusive(host: string)
    ensures !(StartsWith(host, "http://") && StartsWith(host, "https://"))
  {
    if StartsWith(host, "https://") {
      assert host[4] == 's';
    }
  }

  /** A bare host written with a scheme and a trailing slash cleans back to the bare host. */
  lemma CleanHostStripsDecoration(bare: string, scheme: string)
    requires scheme == "http://" || scheme == "https://"
    ensures CleanHost(scheme + bare + "/") == bare
  {
    var h := scheme + bare + "/";
    SchemesExclusive(h);
    assert h[..|scheme|] == scheme;
    if scheme == "https://" {
      assert h[8..] == bare + "/";
    } else {
      assert h[7..] == bare + "/";
    }
  }

  /** `getCleanConfig`: only the host changes. */
  function CleanConfig(c: Config): (r: Config)
    ensures r == c.(host := CleanHost(c.host))
  {
    c.(host := CleanHost(c.host))
  }

  /** The form filled from a saved connection: `x || default` for each field, encryption off. */
  function Selected(name: string, c: Config): (r: Config)
    ensures r.name == name && !r.encrypt
    ensures r.host == (if c.host == "" then "localhost" else c.host)
    ensures r.user == (if c.user == "" then "root" else c.user)
    ensures r.password == c.password && r.database == c.database
    ensures r.port == (if c.port == "" then "3306" else c.port)
  {
    Config(name,
           if c.host == "" then "localhost" else c.host,
           if c.user == "" then "root" else c.user,
           c.password,
           c.database,
           if c.port == "" then "3306" else c.port,
           false)
  }

  /** Selecting a connection that was saved with a host, user and port gives back the saved form, with encryption off. */
  lemma SelectAfterSave(c: Config)
    requires CleanHost(c.host) != "" && c.user != "" && c.port != ""
    ensures Selected(c.name, CleanConfig(c)) == CleanConfig(c).(encrypt := false)
  {
  }

  class ConnectionDialog {
    var connections: map<string, Config>
    var selectedName: string
    var config: Config
    var status: Status

    constructor ()
      ensures connections == map[] && selectedName == "" && config == InitialConfig
      ensures status == Status(NoStatus, "")
    {
      connections := map[];
      selectedName := "";
      config := InitialConfig;
      status := Status(NoStatus, "");
    }

    /** `handleSelect`: an unknown name changes nothing. */
    method Select(name: string)
      modifies this
      ensures name !in old(connections) ==>
        selectedName == old(selectedName) && config == old(config) && status == old(status)
      ensures name in old(connections) ==>
        selectedName == name && config == Selected(name, old(connections)[name]) && status == Status(NoStatus, "")
      ensures connections == old(connections)
    {
      if name in connections {
        var c := connections[name];
        selectedName := name;
        config := Selected(name, c);
        status := Status(NoStatus, "");
      }
    }

    /** `handleSave`: a nameless form is refused; otherwise the cleaned form is stored under its name. */
    method Save()
      modifies this
      ensures old(config.name) == "" ==>
        connections == old(connections) && config == old(config)
        && status == Status(Failed, "Connection name required")
      ensures old(config.name) != "" ==>
        && connections == old(connections)[old(config.name) := CleanConfig(old(config))]
        && config == CleanConfig(old(config))
        && status == Status(Succeeded, "Saved to browser storage")
      ensures selectedName == old(selectedName)
    {
      if config.name == "" {
        status := Status(Failed, "Connection name required");
        return;
      }
      var cleanConfig := CleanConfig(config);
      var newConnections := connections[config.name := cleanConfig];
      connections := newConnections;
      config := cleanConfig;
      status := Status(Succeeded, "Saved to browser storage");
    }

    /** `handleDelete`; `confirmed` is the answer to the confirmation dialog. */
    method Delete(confirmed: bool)
      modifies this
      ensures old(selectedName) == "" || !confirmed ==>
        connections == old(connections) && selectedName == old(selectedName)
        && config == old(config) && status == old(status)
      ensures old(selectedName) != "" && confirmed ==>
        && connections == old(connections) - {old(selectedName)}
        && config == old(config).(name := "") && selectedName == ""
        && status == Status(Succeeded, "Deleted")
    {
      if selectedName == "" {
        return;
      }
      if !confirmed {
        return;
      }
      var newConnections := connections - {selectedName};
      connections := newConnections;
      config := config.(name := "");
      selectedName := "";
      status := Status(Succeeded, "Deleted");
    }
  }

  /** A save keeps every other saved connection as it was. */
  lemma SaveKeepsOthers(connections: map<string, Config>, c: Config, other: string)
    requires other != c.name && other in connections
    ensures other in connections[c.name := CleanConfig(c)]
    ensures connections[c.name := CleanConfig(c)][other] == connections[other]
  {
  }
}
