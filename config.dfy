/**
 * The runtime configuration (`ConfigService`): the API base URL, the
 * Mapbox token and the production flag, each read from the global
 * `window.env` when it exists and falling back to a default, and later
 * overridden key by key by a JSON file the service fetches.
 */
module Config {
  import opened Wrappers
  import Text

  /** A JSON value, as `response.json()` or `window.env` can hold it. */
  datatype Json =
    | JNull
    | JBool(b: bool)
    | JNumber(n: real)
    | JString(s: string)
    | JArray(items: seq<Json>)
    | JObject(fields: map<string, Json>)

  /** JavaScript truthiness of a JSON value. */
  predicate Truthy(v: Json) {
    match v
    case JNull => false
    case JBool(b) => b
    case JNumber(n) => n != 0.0
    case JString(s) => s != ""
    case JArray(_) => true
    case JObject(_) => true
  }

  /**
   * `value[key]` for the keys the service looks up: an object's own
   * property, and nothing on any other kind of value (none of those keys
   * is an array index).
   */
  function Property(value: Json, key: string): (r: Option<Json>)
    ensures r.Some? ==> value.JObject? && key in value.fields && r.value == value.fields[key]
    ensures value.JObject? && key in value.fields ==> r == Some(value.fields[key])
  {
    if value.JObject? && key in value.fields then Some(value.fields[key]) else None
  }

  /**
   * `getEnvVariable(key, defaultValue)`; `env` is `window.env`, `None`
   * when there is no `window` or no `env` on it.
   */
  function GetEnvVariable(env: Option<Json>, key: string, defaultValue: string): Json
  {
    if env.Some? && Truthy(env.value) then
      var v := Property(env.value, key);
      if v.Some? && Truthy(v.value) then v.value else JString(defaultValue)
    else JString(defaultValue)
  }

  /**
   * Without a usable `window.env` the default comes back; with one, the
   * entry for `key` when it is truthy and the default otherwise, so an
   * empty string also falls back.
   */
  lemma GetEnvVariableSpec(env: Option<Json>, key: string, defaultValue: string)
    ensures (env.None? || !Truthy(env.value)) ==> GetEnvVariable(env, key, defaultValue) == JString(defaultValue)
    ensures env.Some? && env.value.JObject? && key in env.value.fields && Truthy(env.value.fields[key]) ==>
      GetEnvVariable(env, key, defaultValue) == env.value.fields[key]
    ensures env.Some? && !(env.value.JObject? && key in env.value.fields && Truthy(env.value.fields[key])) ==>
      GetEnvVariable(env, key, defaultValue) == JString(defaultValue)
    ensures Truthy(JString(defaultValue)) ==> Truthy(GetEnvVariable(env, key, defaultValue))
    ensures env.Some? && env.value.JObject? && key in env.value.fields && env.value.fields[key] == JString("") ==>
      GetEnvVariable(env, key, defaultValue) == JString(defaultValue)
  {
  }

  /** The configuration object the service starts with. */
  function InitialConfig(env: Option<Json>): map<string, Json>
  {
    map[
      "apiUrl" := GetEnvVariable(env, "API_URL", "http://localhost:5000/api"),
      "mapboxToken" := GetEnvVariable(env, "MAPBOX_TOKEN", ""),
      "production" := JBool(GetEnvVariable(env, "NODE_ENV", "development") == JString("production"))
    ]
  }

  /** The three keys every configuration has. */
  predicate HasKeys(config: map<string, Json>) {
    "apiUrl" in config && "mapboxToken" in config && "production" in config
  }

  /**
   * The initial configuration has its three keys; without `window.env`
   * the API is at `http://localhost:5000/api`, there is no Mapbox token,
   * and the build is not production.
   */
  lemma InitialConfigDefaults(env: Option<Json>)
    ensures HasKeys(InitialConfig(env))
    ensures env.None? ==> InitialConfig(env)["apiUrl"] == JString("http://localhost:5000/api")
    ensures env.None? ==> InitialConfig(env)["mapboxToken"] == JString("")
    ensures env.None? ==> InitialConfig(env)["production"] == JBool(false)
  {
    if env.None? {
      assert "development" != "production" by {
        assert |"development"| != |"production"|;
      }
    }
  }

  /**
   * The production flag is set exactly when `NODE_ENV` resolves to the
   * string `production`; any other value (a different string, or a
   * value that is not a string) leaves it false.
   */
  lemma ProductionFlag(env: Option<Json>)
    ensures InitialConfig(env)["production"].JBool?
    ensures InitialConfig(env)["production"].b <==> GetEnvVariable(env, "NODE_ENV", "development") == JString("production")
  {
  }

  // ---------------------------------------------------------------------
  // loadConfig

  /** The own enumerable properties of an array or string: its indices as decimal text. */
  function Indexed(items: seq<Json>): map<string, Json>
  {
    if items == [] then map[]
    else Indexed(items[..|items| - 1])[Text.IntToString(|items| - 1) := items[|items| - 1]]
  }

  /** What `{...value}` copies out of a JSON value. */
  function OwnProperties(value: Json): map<string, Json>
  {
    match value
    case JObject(fields) => fields
    case JArray(items) => Indexed(items)
    case JString(s) => Indexed(seq(|s|, i requires 0 <= i < |s| => JString([s[i]])))
    case _ => map[]
  }

  /** Different indices have different decimal texts. */
  lemma IndexTextInjective(i: nat, j: nat)
    requires Text.IntToString(i) == Text.IntToString(j)
    ensures i == j
  {
    Text.IntToStringRoundTrip(i);
    Text.IntToStringRoundTrip(j);
  }

  /** The copy of an array has a property for index `i`, holding that element... */
  lemma {:induction false} IndexedAt(items: seq<Json>, i: nat)
    requires i < |items|
    ensures Text.IntToString(i) in Indexed(items)
    ensures Indexed(items)[Text.IntToString(i)] == items[i]
  {
    var n := |items| - 1;
    if i < n {
      var init := items[..n];
      IndexedAt(init, i);
      if Text.IntToString(i) == Text.IntToString(n) {
        IndexTextInjective(i, n);
      }
      assert init[i] == items[i];
    }
  }

  /** ...and no other property. */
  lemma {:induction false} IndexedOnly(items: seq<Json>)
    ensures forall k :: k in Indexed(items) ==> exists i :: 0 <= i < |items| && k == Text.IntToString(i)
  {
    if items != [] {
      var n := |items| - 1;
      IndexedOnly(items[..n]);
    }
  }

  /**
   * Spreading an object copies its fields; spreading `null`, a boolean or
   * a number copies nothing; spreading an array or a string copies one
   * property per index, named by the index's decimal text.
   */
  lemma OwnPropertiesSpec(value: Json)
    ensures value.JObject? ==> OwnProperties(value) == value.fields
    ensures value.JNull? || value.JBool? || value.JNumber? ==> OwnProperties(value) == map[]
    ensures value.JArray? ==> forall i :: 0 <= i < |value.items| ==>
      Text.IntToString(i) in OwnProperties(value) && OwnProperties(value)[Text.IntToString(i)] == value.items[i]
    ensures value.JString? ==> forall i :: 0 <= i < |value.s| ==>
      Text.IntToString(i) in OwnProperties(value) && OwnProperties(value)[Text.IntToString(i)] == JString([value.s[i]])
  {
    match value {
      case JArray(items) =>
        forall i | 0 <= i < |items|
          ensures Text.IntToString(i) in Indexed(items) && Indexed(items)[Text.IntToString(i)] == items[i]
        {
          IndexedAt(items, i);
        }
      case JString(s) =>
        var chars := seq(|s|, i requires 0 <= i < |s| => JString([s[i]]));
        forall i | 0 <= i < |s|
          ensures Text.IntToString(i) in Indexed(chars) && Indexed(chars)[Text.IntToString(i)] == JString([s[i]])
        {
          IndexedAt(chars, i);
        }
      case _ =>
    }
  }

  /** `{ ...base, ...loaded }`: every key of either, the loaded value winning. */
  function Merge(base: map<string, Json>, loaded: map<string, Json>): (r: map<string, Json>)
    ensures r.Keys == base.Keys + loaded.Keys
    ensures forall k :: k in loaded ==> r[k] == loaded[k]
    ensures forall k :: k in base && k !in loaded ==> r[k] == base[k]
  {
    base + loaded
  }

  /** Merging keeps the three keys, and merging in nothing changes nothing. */
  lemma MergeKeepsKeys(base: map<string, Json>, loaded: map<string, Json>)
    requires HasKeys(base)
    ensures HasKeys(Merge(base, loaded))
    ensures loaded == map[] ==> Merge(base, loaded) == base
  {
  }

  /** A key that starts with a letter is never the decimal text of an index. */
  lemma {:induction false} IndexedLacksKey(items: seq<Json>, key: string)
    requires key != [] && 'a' <= key[0] <= 'z'
    ensures key !in Indexed(items)
  {
    IndexedOnly(items);
  }

  /**
   * After the merge of a loaded body, a configuration key holds the body's
   * own field of that name when the body is an object that has one, and
   * keeps its old value otherwise (arrays and strings only bring index
   * keys, which never clash with a key that starts with a letter).
   */
  lemma LoadedEntry(config: map<string, Json>, body: Json, key: string)
    requires key in config && key != [] && 'a' <= key[0] <= 'z'
    ensures key in Merge(config, OwnProperties(body))
    ensures Merge(config, OwnProperties(body))[key] ==
      if body.JObject? && key in body.fields then body.fields[key] else config[key]
  {
    match body {
      case JArray(items) => IndexedLacksKey(items, key);
      case JString(t) => IndexedLacksKey(seq(|t|, i requires 0 <= i < |t| => JString([t[i]])), key);
      case _ =>
    }
  }

  /** How the fetch of `/assets/config.json` ends. */
  datatype FetchOutcome =
    | Failed                          // `fetch` itself rejects
    | Answered(ok: bool, body: Option<Json>)   // `body` is `None` when `response.json()` rejects

  class ConfigService {
    var config: map<string, Json>

    predicate Valid()
      reads this
    {
      HasKeys(config)
    }

    constructor (env: Option<Json>)
      ensures Valid()
      ensures config == InitialConfig(env)
      ensures ApiUrl() == GetEnvVariable(env, "API_URL", "http://localhost:5000/api")
      ensures MapboxToken() == GetEnvVariable(env, "MAPBOX_TOKEN", "")
      ensures IsProduction() == JBool(GetEnvVariable(env, "NODE_ENV", "development") == JString("production"))
    {
      config := InitialConfig(env);
    }

    function ApiUrl(): (r: Json)
      reads this
      requires Valid()
      ensures r == config["apiUrl"]
    {
      config["apiUrl"]
    }

    function MapboxToken(): (r: Json)
      reads this
      requires Valid()
      ensures r == config["mapboxToken"]
    {
      config["mapboxToken"]
    }

    function IsProduction(): (r: Json)
      reads this
      requires Valid()
      ensures r == config["production"]
    {
      config["production"]
    }

    /**
     * `loadConfig`: only a successful answer whose body parses replaces
     * the configuration, by the merge; a failed fetch, a non-ok status or
     * a body that does not parse leaves it as it was.
     */
    method LoadConfig(outcome: FetchOutcome)
      requires Valid()
      modifies this
      ensures Valid()
      ensures outcome.Answered? && outcome.ok && outcome.body.Some? ==>
        config == Merge(old(config), OwnProperties(outcome.body.value))
      ensures !(outcome.Answered? && outcome.ok && outcome.body.Some?) ==> config == old(config)
      ensures outcome.Answered? && outcome.ok && outcome.body.Some? && outcome.body.value.JObject? ==>
        && ApiUrl() == (if "apiUrl" in outcome.body.value.fields then outcome.body.value.fields["apiUrl"] else old(config["apiUrl"]))
        && MapboxToken() == (if "mapboxToken" in outcome.body.value.fields then outcome.body.value.fields["mapboxToken"] else old(config["mapboxToken"]))
        && IsProduction() == (if "production" in outcome.body.value.fields then outcome.body.value.fields["production"] else old(config["production"]))
    {
      if outcome.Answered? && outcome.ok {
        if outcome.body.Some? {
          LoadedEntry(config, outcome.body.value, "apiUrl");
          LoadedEntry(config, outcome.body.value, "mapboxToken");
          LoadedEntry(config, outcome.body.value, "production");
          MergeKeepsKeys(config, OwnProperties(outcome.body.value));
          config := Merge(config, OwnProperties(outcome.body.value));
        }
      }
    }
  }
}
