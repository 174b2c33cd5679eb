/** Loading of the application configuration (utils/config.ts): the first
    candidate path that exists is read, and the parsed document must carry
    an ISBN key, an administrator account and a server address. The file
    system and the YAML parser are inputs: the set of existing paths and
    the parsed document of each. */
module AppConfig {
  import opened JsValues

  /** A parsed document: section name to field name to value. A section
      that is missing, or is not an object, has no entry. */
  type Config = map<string, map<string, Value>>

  datatype ConfigResult = Loaded(config: Config) | Thrown(message: string)

  /** `config.section?.key`: `undefined` when either is missing. */
  function Field(config: Config, section: string, key: string): Value {
    if section in config && key in config[section] then config[section][key] else Undefined
  }

  /** The index of the first candidate that exists, if any. */
  function FirstExisting(candidates: seq<string>, existing: set<string>): (r: Option<nat>)
    ensures r.Some? ==> r.value < |candidates| && candidates[r.value] in existing
    ensures r.Some? ==> forall j :: 0 <= j < r.value ==> candidates[j] !in existing
    ensures r.None? ==> forall j :: 0 <= j < |candidates| ==> candidates[j] !in existing
  {
    if candidates == [] then None
    else if candidates[0] in existing then Some(0)
    else
      match FirstExisting(candidates[1..], existing)
      case None => None
      case Some(k) => Some(k + 1)
  }

  /** The search loop: the first existing candidate, in list order, or the
      empty path when none exists. */
  method FindConfigPath(candidates: seq<string>, existing: set<string>) returns (configPath: string)
    ensures FirstExisting(candidates, existing).Some? ==>
      configPath == candidates[FirstExisting(candidates, existing).value]
    ensures FirstExisting(candidates, existing).None? ==> configPath == ""
  {
    configPath := "";
    var i := 0;
    while i < |candidates|
      invariant 0 <= i <= |candidates|
      invariant configPath == ""
      invariant forall j :: 0 <= j < i ==> candidates[j] !in existing
    {
      if candidates[i] in existing {
        configPath := candidates[i];
        FirstIsFound(candidates, existing, i);
        return;
      }
      i := i + 1;
    }
  }

  lemma {:induction false} FirstIsFound(candidates: seq<string>, existing: set<string>, i: nat)
    requires i < |candidates| && candidates[i] in existing
    requires forall j :: 0 <= j < i ==> candidates[j] !in existing
    ensures FirstExisting(candidates, existing) == Some(i)
  {
    if i > 0 {
      FirstIsFound(candidates[1..], existing, i - 1);
    }
  }

  /** The required-field checks, in order: ISBN key, administrator account,
      server address. The first failing one decides the error; a document
      passing all of them is returned as it is. */
  function Validate(config: Config): (r: ConfigResult)
    ensures !Truthy(Field(config, "api", "isbn_key")) ==> r == Thrown("缺少API密钥配置")
    ensures Truthy(Field(config, "api", "isbn_key"))
      && (!Truthy(Field(config, "admin", "username")) || !Truthy(Field(config, "admin", "password")))
      ==> r == Thrown("缺少管理员账户配置")
    ensures Truthy(Field(config, "api", "isbn_key"))
      && Truthy(Field(config, "admin", "username")) && Truthy(Field(config, "admin", "password"))
      && (!Truthy(Field(config, "server", "port")) || !Truthy(Field(config, "server", "host")))
      ==> r == Thrown("缺少服务器端口或主机配置")
    ensures r.Loaded? <==>
      && Truthy(Field(config, "api", "isbn_key"))
      && Truthy(Field(config, "admin", "username")) && Truthy(Field(config, "admin", "password"))
      && Truthy(Field(config, "server", "port")) && Truthy(Field(config, "server", "host"))
    ensures r.Loaded? ==> r.config == config
  {
    if !Truthy(Field(config, "api", "isbn_key")) then Thrown("缺少API密钥配置")
    else if !Truthy(Field(config, "admin", "username")) || !Truthy(Field(config, "admin", "password")) then
      Thrown("缺少管理员账户配置")
    else if !Truthy(Field(config, "server", "port")) || !Truthy(Field(config, "server", "host")) then
      Thrown("缺少服务器端口或主机配置")
    else Loaded(config)
  }

  /** `loadConfig`: no existing candidate (or an empty path) throws;
      otherwise the document of the chosen path is validated. `documents`
      gives the parsed contents of every existing path. */
  method LoadConfig(candidates: seq<string>, documents: map<string, Config>) returns (r: ConfigResult)
    ensures FirstExisting(candidates, documents.Keys).None? ==> r == Thrown("配置文件 config.yaml 未找到")
    ensures FirstExisting(candidates, documents.Keys).Some? ==>
      var path := candidates[FirstExisting(candidates, documents.Keys).value];
      r == (if path == "" then Thrown("配置文件 config.yaml 未找到") else Validate(documents[path]))
  {
    var configPath := FindConfigPath(candidates, documents.Keys);
    if configPath == "" {
      return Thrown("配置文件 config.yaml 未找到");
    }
    r := Validate(documents[configPath]);
  }

  /** A server port of 0 is refused like a missing one. */
  lemma ZeroPortRefused(config: Config)
    requires Truthy(Field(config, "api", "isbn_key"))
    requires Truthy(Field(config, "admin", "username")) && Truthy(Field(config, "admin", "password"))
    requires Field(config, "server", "port") == Number(Real(0.0))
    ensures Validate(config) == Thrown("缺少服务器端口或主机配置")
  {
  }
}
