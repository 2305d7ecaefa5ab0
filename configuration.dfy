/** How the adapter's constructor settles its settings: each field is the
    `GHOST_STORAGE_ADAPTER_OCI_*` environment variable, else the field of the
    configuration object, else a default, chained with JavaScript's `||`.
    The settings are computed once and never changed afterwards. */
module Configuration {
  import opened Wrappers
  import opened Slashes
  import opened JsString

  /** JavaScript truthiness of a string-or-`undefined` value (`None` is
      `undefined`): the empty string counts as absent. */
  predicate Truthy(v: Option<string>)
  {
    v.Some? && v.value != ""
  }

  /** `a || b`. */
  function Or(a: Option<string>, b: Option<string>): (r: Option<string>)
    ensures b.Some? ==> r.Some?
    ensures Truthy(r) <==> Truthy(a) || Truthy(b)
  {
    if Truthy(a) then a else b
  }

  /** `c[k]` is truthy and no candidate before it is. */
  predicate FirstTruthyAt(c: seq<Option<string>>, k: int)
  {
    0 <= k < |c| && Truthy(c[k]) && forall j | 0 <= j < k :: !Truthy(c[j])
  }

  /** What `c[0] || c[1] || ... || c[n-1]` evaluates to: the first truthy
      candidate, or the last candidate when none is truthy. */
  function FirstTruthy(c: seq<Option<string>>): (r: Option<string>)
    requires c != []
    ensures || (exists k :: FirstTruthyAt(c, k) && r == c[k])
            || ((forall j | 0 <= j < |c| :: !Truthy(c[j])) && r == c[|c| - 1])
    decreases |c|
  {
    if |c| == 1 || Truthy(c[0]) then
      assert Truthy(c[0]) ==> FirstTruthyAt(c, 0);
      c[0]
    else
      var r := FirstTruthy(c[1..]);
      FirstTruthyAfterFalsy(c, r);
      r
  }

  /** Skipping a falsy first candidate. */
  lemma FirstTruthyAfterFalsy(c: seq<Option<string>>, r: Option<string>)
    requires |c| > 1 && !Truthy(c[0])
    requires || (exists k :: FirstTruthyAt(c[1..], k) && r == c[1..][k])
             || ((forall j | 0 <= j < |c[1..]| :: !Truthy(c[1..][j])) && r == c[1..][|c[1..]| - 1])
    ensures || (exists k :: FirstTruthyAt(c, k) && r == c[k])
            || ((forall j | 0 <= j < |c| :: !Truthy(c[j])) && r == c[|c| - 1])
  {
  }

  /** Two candidates are `a || b`. */
  lemma FirstTruthyOfTwo(a: Option<string>, b: Option<string>)
    ensures FirstTruthy([a, b]) == Or(a, b)
  {
  }

  /** Three candidates are `a || b || c`. */
  lemma FirstTruthyOfThree(a: Option<string>, b: Option<string>, c: Option<string>)
    ensures FirstTruthy([a, b, c]) == Or(Or(a, b), c)
  {
  }

  /** `${v}` in a template literal: `undefined` is spelled out. */
  function Interpolate(v: Option<string>): string
  {
    match v
    case None => "undefined"
    case Some(s) => s
  }

  /** The `GHOST_STORAGE_ADAPTER_OCI_*` environment variables, in the order
      the constructor reads them (COMPARTMENT, REGION, BUCKET, NAMESPACE,
      HOST, PATH_PREFIX, PROFILE, CONFIG). */
  datatype Environment = Environment(
    compartment: Option<string>, region: Option<string>, bucket: Option<string>,
    namespace: Option<string>, host: Option<string>, pathPrefix: Option<string>,
    profile: Option<string>, config: Option<string>)

  /** The fields the constructor takes from its configuration object. The
      host is read from `assetHost`; a field called `host` is not looked at. */
  datatype Options = Options(
    compartmentId: Option<string>, profileName: Option<string>, configPath: Option<string>,
    bucket: Option<string>, pathPrefix: Option<string>, assetHost: Option<string>,
    region: Option<string>, namespace: Option<string>)

  /** The resolved, immutable settings of one adapter. */
  datatype Settings = Settings(
    compartmentId: Option<string>, region: Option<string>, bucket: Option<string>,
    namespace: Option<string>, host: string, pathPrefix: string,
    profileName: string, configPath: string)

  const DefaultProfile := "DEFAULT"
  const DefaultConfigPath := "~/.oci/config"

  const ServiceLabel := ".objectstorage."
  const ServiceDomain := ".oci.customer-oci.com"

  /** The public endpoint of a namespace in a region: the namespace leads,
      the region follows the service label, and the service domain ends the
      name; a missing value shows up as `undefined`. */
  function DerivedHost(namespace: Option<string>, region: Option<string>): (r: string)
    ensures var ns, rg := Interpolate(namespace), Interpolate(region);
      && |r| == |ns| + |ServiceLabel| + |rg| + |ServiceDomain|
      && ns + ServiceLabel <= r
      && OccursAt(r, rg, |ns| + |ServiceLabel|)
      && r[|r| - |ServiceDomain|..] == ServiceDomain
  {
    var r := Interpolate(namespace) + ServiceLabel + Interpolate(region) + ServiceDomain;
    assert r == (Interpolate(namespace) + ServiceLabel) + Interpolate(region) + ServiceDomain;
    r
  }

  /** The constructor's field resolution. */
  function Resolve(env: Environment, opts: Options): (r: Settings)
    ensures r.compartmentId == FirstTruthy([env.compartment, opts.compartmentId])
    ensures r.region == FirstTruthy([env.region, opts.region])
    ensures r.bucket == FirstTruthy([env.bucket, opts.bucket])
    ensures r.namespace == FirstTruthy([env.namespace, opts.namespace])
    ensures Some(r.host) == FirstTruthy([env.host, opts.assetHost, Some(DerivedHost(r.namespace, r.region))])
    ensures r.pathPrefix == StripLeadingSlash(FirstTruthy([env.pathPrefix, opts.pathPrefix, Some("")]).value)
    ensures Some(r.profileName) == FirstTruthy([env.profile, opts.profileName, Some(DefaultProfile)])
    ensures Some(r.configPath) == FirstTruthy([env.config, opts.configPath, Some(DefaultConfigPath)])
    ensures r.host != "" && r.profileName != "" && r.configPath != ""
  {
    var namespace := Or(env.namespace, opts.namespace);
    var region := Or(env.region, opts.region);
    FirstTruthyOfTwo(env.compartment, opts.compartmentId);
    FirstTruthyOfTwo(env.region, opts.region);
    FirstTruthyOfTwo(env.bucket, opts.bucket);
    FirstTruthyOfTwo(env.namespace, opts.namespace);
    FirstTruthyOfThree(env.host, opts.assetHost, Some(DerivedHost(namespace, region)));
    FirstTruthyOfThree(env.pathPrefix, opts.pathPrefix, Some(""));
    FirstTruthyOfThree(env.profile, opts.profileName, Some(DefaultProfile));
    FirstTruthyOfThree(env.config, opts.configPath, Some(DefaultConfigPath));
    Settings(
      compartmentId := Or(env.compartment, opts.compartmentId),
      region := region,
      bucket := Or(env.bucket, opts.bucket),
      namespace := namespace,
      host := Or(Or(env.host, opts.assetHost), Some(DerivedHost(namespace, region))).value,
      pathPrefix := StripLeadingSlash(Or(Or(env.pathPrefix, opts.pathPrefix), Some("")).value),
      profileName := Or(Or(env.profile, opts.profileName), Some(DefaultProfile)).value,
      configPath := Or(Or(env.config, opts.configPath), Some(DefaultConfigPath)).value)
  }

  /** With neither HOST nor `assetHost` set, the host is derived from the
      resolved namespace and region. */
  lemma HostDefault(env: Environment, opts: Options)
    requires !Truthy(env.host) && !Truthy(opts.assetHost)
    ensures var r := Resolve(env, opts);
      r.host == Interpolate(r.namespace) + ".objectstorage." + Interpolate(r.region) + ".oci.customer-oci.com"
  {
  }

  /** The resolved prefix starts with `/` only when the raw value started with `//`. */
  lemma PathPrefixLeadingSlash(env: Environment, opts: Options)
    ensures var raw := FirstTruthy([env.pathPrefix, opts.pathPrefix, Some("")]).value;
      var p := Resolve(env, opts).pathPrefix;
      (p != [] && p[0] == '/') <==> (|raw| >= 2 && raw[0] == '/' && raw[1] == '/')
  {
  }

  /** Non-empty environment variables decide every field: the configuration
      object is then irrelevant. */
  lemma EnvironmentWins(env: Environment, a: Options, b: Options)
    requires Truthy(env.compartment) && Truthy(env.region) && Truthy(env.bucket) && Truthy(env.namespace)
    requires Truthy(env.host) && Truthy(env.pathPrefix) && Truthy(env.profile) && Truthy(env.config)
    ensures Resolve(env, a) == Resolve(env, b)
  {
  }

  /** Nothing configured anywhere: `undefined` identifiers and the defaults. */
  lemma NothingConfigured()
    ensures Resolve(Environment(None, None, None, None, None, None, None, None),
                    Options(None, None, None, None, None, None, None, None))
         == Settings(None, None, None, None,
                     "undefined" + ".objectstorage." + "undefined" + ".oci.customer-oci.com", "",
                     "DEFAULT", "~/.oci/config")
  {
  }
}
