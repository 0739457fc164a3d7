// Construction of a Hominid::Base client: the API-key checks, the data center taken
// from the key, the RPC and export endpoints, and the merge of the user's
// configuration over the defaults table (lib/hominid/base.rb:9-39).

module Client {
  import opened Ruby

  const ApiVersion := "1.2"
  const ExportApiVersion := "1.0"
  const ExportPath := "/export/" + ExportApiVersion + "/list/"
  /** The host name that follows the data center, "<dc>.api.mailchimp.com". */
  const HostSuffix := ".api.mailchimp.com"

  /** The defaults table; configuration keys are the names of Ruby symbols. */
  const Defaults: map<string, Value> := map[
    "double_opt_in" := Bool(false),
    "merge_tags" := Hash(map[]),
    "replace_interests" := Bool(true),
    "secure" := Bool(false),
    "send_goodbye" := Bool(false),
    "send_notify" := Bool(false),
    "send_welcome" := Bool(false),
    "update_existing" := Bool(true)
  ]

  /** Why construction fails: StandardError for a missing key, ArgumentError for a key
      without '-', and NoMethodError when `include?` or `split` is sent to a value
      that lacks it. */
  datatype InitError = MissingApiKey | MalformedApiKey | ApiKeyNotString

  /** A host and port for Net::HTTP. */
  datatype Endpoint = Endpoint(host: string, port: int)

  /** `api_key.split('-').last`, interpolated: nil (an empty split) renders as "". */
  function DataCenter(apiKey: string): (dc: string)
    ensures '-' !in dc
  {
    var fields := Split(apiKey, '-');
    if |fields| == 0 then "" else fields[|fields| - 1]
  }

  /** For a key that does not end in '-', the data center is exactly the text after
      the last '-'. */
  lemma {:induction false} DataCenterIsLastSegment(apiKey: string)
    requires '-' in apiKey && apiKey[|apiKey| - 1] != '-'
    ensures |DataCenter(apiKey)| < |apiKey|
    ensures apiKey[|apiKey| - |DataCenter(apiKey)| - 1] == '-'
    ensures apiKey[|apiKey| - |DataCenter(apiKey)|..] == DataCenter(apiKey)
  {
    var f := Fields(apiKey, '-');
    SplitKeepsFields(apiKey, '-');
    JoinFields(apiKey, '-');
    var dc := f[|f| - 1];
    var prefix := Join(f[..|f| - 1], "-");
    assert apiKey == prefix + "-" + dc;
  }

  /** Trailing '-' characters are ignored, because split drops trailing empty fields. */
  lemma DataCenterIgnoresTrailingDash(apiKey: string)
    requires apiKey != [] && apiKey[|apiKey| - 1] == '-'
    ensures DataCenter(apiKey) == DataCenter(apiKey[..|apiKey| - 1])
  {
    var fs := Fields(apiKey[..|apiKey| - 1], '-');
    assert Fields(apiKey, '-') == fs + [""];
    assert (fs + [""])[..|fs|] == fs;
    assert Split(apiKey, '-') == DropTrailingEmpty(fs);
  }

  lemma DataCenterExample()
    ensures DataCenter("abc-us1") == "us1"
  {
    DataCenterIsLastSegment("abc-us1");
  }

  /** The XML-RPC URL: the scheme, the data center, then the host and the API version. */
  function RpcUrl(dc: string, secure: bool): (url: string)
    ensures (if secure then "https://" else "http://") + dc <= url
    ensures var tail := HostSuffix + "/" + ApiVersion + "/";
      |url| == |if secure then "https://" else "http://"| + |dc| + |tail| && url[|url| - |tail|..] == tail
  {
    (if secure then "https://" else "http://") + dc + HostSuffix + "/" + ApiVersion + "/"
  }

  /** The Net::HTTP target: the data center's host, on 443 when secure and 80 otherwise. */
  function ExportEndpoint(dc: string, secure: bool): (e: Endpoint)
    ensures e.port == (if secure then 443 else 80)
    ensures dc <= e.host && e.host[|dc|..] == HostSuffix
  {
    Endpoint(dc + HostSuffix, if secure then 443 else 80)
  }

  /** The RPC URL names its data center and scheme unambiguously. */
  lemma {:induction false} RpcUrlInjective(dc1: string, s1: bool, dc2: string, s2: bool)
    requires RpcUrl(dc1, s1) == RpcUrl(dc2, s2)
    ensures dc1 == dc2 && s1 == s2
  {
    var u := RpcUrl(dc1, s1);
    var tail := HostSuffix + "/" + ApiVersion + "/";
    assert u[4] == (if s1 then 's' else ':');
    assert RpcUrl(dc2, s2)[4] == (if s2 then 's' else ':');
    var head := if s1 then "https://" else "http://";
    assert u == head + dc1 + tail;
    assert u == head + dc2 + tail;
    assert |dc1| == |dc2|;
    assert dc1 == u[|head|..|head| + |dc1|];
    assert dc2 == u[|head|..|head| + |dc2|];
  }

  /** The scheme and the export port agree: https with 443, http with 80. */
  lemma SchemeMatchesPort(dc: string, secure: bool)
    ensures ExportEndpoint(dc, secure).port == 443 <==> RpcUrl(dc, secure)[..8] == "https://"
    ensures ExportEndpoint(dc, secure).port == 80 <==> RpcUrl(dc, secure)[..7] == "http://"
  {
    var u := RpcUrl(dc, secure);
    if !secure {
      assert u[4] == ':';
      assert "https://"[4] == 's';
    } else {
      assert u[4] == 's';
      assert "http://"[4] == ':';
    }
  }

  /** `if config[:secure]`: the user's value, truthy or absent. */
  predicate Secure(config: map<string, Value>)
  {
    "secure" in config && Truthy(config["secure"])
  }

  /** The two `raise ... unless` guards of `initialize`, and the NoMethodError that
      `include?` or `split` raises for a key of the wrong class. On success, the key. */
  function CheckKey(config: map<string, Value>): (r: Result<string, InitError>)
    ensures r == Err(MissingApiKey) <==> !("api_key" in config && Truthy(config["api_key"]))
    ensures r == Err(MalformedApiKey) <==>
      "api_key" in config &&
      match config["api_key"]
      case Str(key) => '-' !in key
      case Arr(es) => Str("-") !in es
      case Hash(m) => "-" !in m
      case _ => false
    ensures r.Ok? <==> "api_key" in config && config["api_key"].Str? && '-' in config["api_key"].s
    ensures r.Ok? ==> config["api_key"] == Str(r.value)
  {
    if !("api_key" in config && Truthy(config["api_key"])) then Err(MissingApiKey)
    else
      match config["api_key"]
      case Str(key) => if '-' !in key then Err(MalformedApiKey) else Ok(key)
      case Arr(es) => if Str("-") in es then Err(ApiKeyNotString) else Err(MalformedApiKey)
      case Hash(m) => if "-" in m then Err(ApiKeyNotString) else Err(MalformedApiKey)
      case _ => Err(ApiKeyNotString)
  }

  lemma MalformedKeyExample()
    ensures CheckKey(map["api_key" := Str("abc123")]) == Err(MalformedApiKey)
  {
    assert '-' !in "abc123";
  }

  lemma WellFormedKeyExample()
    ensures CheckKey(map["api_key" := Str("abc-us1")]) == Ok("abc-us1")
    ensures RpcUrl(DataCenter("abc-us1"), false) == "http://us1.api.mailchimp.com/1.2/"
  {
    assert "abc-us1"[3] == '-';
    DataCenterExample();
    RpcUrlExample();
  }

  lemma RpcUrlExample()
    ensures RpcUrl("us1", false) == "http://us1.api.mailchimp.com/1.2/"
  {
    var u := RpcUrl("us1", false);
    assert u[..10] == "http://us1";
    assert u[10..] == ".api.mailchimp.com/1.2/";
    assert u == u[..10] + u[10..];
  }

  /** A constructed client. Ruby freezes the configuration and never reassigns the
      three instance variables after `initialize`, so they are constant fields here;
      the XML-RPC client and Net::HTTP are represented by their URL and endpoint. */
  class Base {
    const config: map<string, Value>
    const chimpApi: string
    const exportApi: Endpoint

    /** What every constructed client satisfies: it holds a String key with a '-'. */
    predicate Valid()
    {
      "api_key" in config && config["api_key"].Str? && '-' in config["api_key"].s
    }

    /** `@config[:api_key]`. */
    function ApiKey(): string
      requires Valid()
    {
      config["api_key"].s
    }

    /** The assignments of `initialize` once both guards have passed. */
    constructor (config: map<string, Value>, key: string)
      requires CheckKey(config) == Ok(key)
      ensures Valid() && ApiKey() == key
      ensures this.config == Defaults + config
      ensures chimpApi == RpcUrl(DataCenter(key), Secure(config))
      ensures exportApi == ExportEndpoint(DataCenter(key), Secure(config))
    {
      var dc := DataCenter(key);
      this.config := Defaults + config;
      if Secure(config) {
        chimpApi := RpcUrl(dc, true);
        exportApi := ExportEndpoint(dc, true);
      } else {
        chimpApi := RpcUrl(dc, false);
        exportApi := ExportEndpoint(dc, false);
      }
    }
  }

  /** `Hominid::Base.new(config)`: the guards raise before any client is built;
      otherwise a new client whose configuration is the defaults table with the
      user's values over it, and whose endpoints follow the key's data center and the
      user's `secure` flag. */
  method Initialize(config: map<string, Value>) returns (r: Result<Base, InitError>)
    ensures r.Err? <==> CheckKey(config).Err?
    ensures r.Err? ==> r.error == CheckKey(config).error
    ensures r.Ok? ==> fresh(r.value) && r.value.Valid()
    ensures r.Ok? ==> r.value.config["api_key"] == config["api_key"]
    ensures r.Ok? ==> r.value.config.Keys == Defaults.Keys + config.Keys
    ensures r.Ok? ==> forall k :: k in config ==> r.value.config[k] == config[k]
    ensures r.Ok? ==> forall k :: k in Defaults && k !in config ==> r.value.config[k] == Defaults[k]
    ensures r.Ok? ==> r.value.chimpApi == RpcUrl(DataCenter(r.value.ApiKey()), Secure(config))
    ensures r.Ok? ==> r.value.exportApi == ExportEndpoint(DataCenter(r.value.ApiKey()), Secure(config))
  {
    var checked := CheckKey(config);
    match checked
    case Err(e) =>
      r := Err(e);
    case Ok(key) =>
      var b := new Base(config, key);
      r := Ok(b);
  }

  /** `apply_defaults_to(options)`: the options win over the stored configuration. */
  function ApplyDefaultsTo(b: Base, options: map<string, Value>): (r: map<string, Value>)
    ensures r.Keys == b.config.Keys + options.Keys
    ensures forall k :: k in options ==> r[k] == options[k]
    ensures forall k :: k in b.config && k !in options ==> r[k] == b.config[k]
  {
    b.config + options
  }
}
