/** The start-up checker for the Google Cloud set-up: `check_google_credentials`
    looks at the service-account file named by GOOGLE_APPLICATION_CREDENTIALS,
    `check_config` looks at the three settings of the configuration module, and
    `main` runs both and reports their conjunction.

    The environment, the file system and the configuration module are inputs:
    the variable's value as an `Option`, the existence test and the outcome of
    opening and parsing the file as functions of the path, and the configuration
    as a map from attribute name to value. */
module Credentials {
  import opened Wrappers
  import opened Seqs

  /** What `open` followed by `json.load` produced for a path. */
  datatype Loaded =
    | Parsed(fields: map<string, string>)  // a JSON object: its keys, each with its value as printed
    | DecodeError                          // `json.JSONDecodeError`
    | ReadFailed(message: string)          // any other exception while opening or reading

  /** The two file-system services the check uses. */
  datatype FileSystem = FileSystem(pathExists: string -> bool, load: string -> Loaded)

  /** The early-return branch `check_google_credentials` takes, with what it reports. */
  datatype CredentialsVerdict =
    | VariableUnset
    | FileNotFound(path: string)
    | KeysMissing(missing: seq<string>)
    | InvalidJson
    | ReadError(message: string)
    | CredentialsOk(projectId: string, clientEmail: string)

  /** The keys a service-account file must have, in the order they are reported. */
  const RequiredKeys: seq<string> := ["type", "project_id", "private_key_id", "private_key", "client_email"]

  lemma RequiredKeysDistinct()
    ensures Distinct(RequiredKeys)
  {
  }

  /** The keys of `keys` that the object lacks, in the order of `keys`. */
  function MissingFrom(keys: seq<string>, fields: map<string, string>): (m: seq<string>)
    ensures |m| <= |keys|
    ensures forall k :: k in m <==> k in keys && k !in fields
    ensures Distinct(keys) ==>
      forall i, j :: 0 <= i < j < |m| ==> IndexOf(keys, m[i]) < IndexOf(keys, m[j])
  {
    if keys == [] then []
    else (if keys[0] in fields then [] else [keys[0]]) + MissingFrom(keys[1..], fields)
  }

  /** `missing_keys`: the required keys absent from the parsed object, in the
      order of `RequiredKeys`; empty exactly when every required key is there. */
  function MissingKeys(fields: map<string, string>): (m: seq<string>)
    ensures forall k :: k in m <==> k in RequiredKeys && k !in fields
    ensures forall i, j :: 0 <= i < j < |m| ==>
      IndexOf(RequiredKeys, m[i]) < IndexOf(RequiredKeys, m[j])
    ensures m == [] <==> forall k :: k in RequiredKeys ==> k in fields
  {
    RequiredKeysDistinct();
    var m := MissingFrom(RequiredKeys, fields);
    assert m != [] ==> m[0] in m;
    m
  }

  /** Python's `not creds_path` is false: the variable is set to a non-empty string. */
  predicate VariableSet(env: Option<string>)
  {
    env.Some? && env.value != ""
  }

  /** The decision chain of `check_google_credentials`: variable, then file, then contents. */
  function CredentialsVerdictOf(env: Option<string>, fs: FileSystem): (v: CredentialsVerdict)
    ensures v == VariableUnset <==> !VariableSet(env)
    ensures v.FileNotFound? <==> VariableSet(env) && !fs.pathExists(env.value)
    ensures v.FileNotFound? ==> v.path == env.value
    ensures v == InvalidJson <==>
      VariableSet(env) && fs.pathExists(env.value) && fs.load(env.value) == DecodeError
    ensures v.ReadError? <==>
      VariableSet(env) && fs.pathExists(env.value) && fs.load(env.value).ReadFailed?
    ensures v.ReadError? ==> v.message == fs.load(env.value).message
    ensures v.KeysMissing? <==>
      VariableSet(env) && fs.pathExists(env.value) && fs.load(env.value).Parsed?
      && exists k :: k in RequiredKeys && k !in fs.load(env.value).fields
    ensures v.KeysMissing? ==> v.missing == MissingKeys(fs.load(env.value).fields) && v.missing != []
    ensures v.CredentialsOk? <==>
      VariableSet(env) && fs.pathExists(env.value) && fs.load(env.value).Parsed?
      && forall k :: k in RequiredKeys ==> k in fs.load(env.value).fields
    ensures v.CredentialsOk? ==>
      var fields := fs.load(env.value).fields;
      "project_id" in fields && "client_email" in fields
      && v.projectId == fields["project_id"] && v.clientEmail == fields["client_email"]
  {
    if !VariableSet(env) then VariableUnset
    else
      var path := env.value;
      if !fs.pathExists(path) then FileNotFound(path)
      else match fs.load(path)
        case DecodeError => InvalidJson
        case ReadFailed(message) => ReadError(message)
        case Parsed(fields) =>
          var missing := MissingKeys(fields);
          if missing != [] then KeysMissing(missing)
          else
            assert "project_id" == RequiredKeys[1] && "client_email" == RequiredKeys[4];
            CredentialsOk(fields["project_id"], fields["client_email"])
  }

  /** `check_google_credentials`: true exactly when the variable is set, the file
      exists, it parses as an object, and that object has every required key.
      An unset or empty variable fails whatever the file system holds, and for a
      parsed object the answer is whether `missing_keys` is empty. */
  function CheckGoogleCredentials(env: Option<string>, fs: FileSystem): (ok: bool)
    ensures ok <==>
      VariableSet(env) && fs.pathExists(env.value) && fs.load(env.value).Parsed?
      && forall k :: k in RequiredKeys ==> k in fs.load(env.value).fields
    ensures !VariableSet(env) ==> !ok
    ensures VariableSet(env) && fs.pathExists(env.value) && fs.load(env.value).Parsed? ==>
      (ok <==> MissingKeys(fs.load(env.value).fields) == [])
  {
    CredentialsVerdictOf(env, fs).CredentialsOk?
  }

  /** The problem recorded for one configuration attribute. */
  datatype ConfigError =
    | Missing(name: string)         // the module has no such attribute
    | NotConfigured(name: string)   // the attribute is falsy or still the placeholder

  /** The attributes the configuration module must define, in the order they are checked. */
  const RequiredVars: seq<string> := ["GCP_PROJECT_ID", "GCP_LOCATION", "GCS_BUCKET_NAME"]

  /** The value shipped in the configuration template. */
  const Placeholder: string := "your-project-id"

  lemma RequiredVarsDistinct()
    ensures Distinct(RequiredVars)
  {
  }

  /** `not value or value == "your-project-id"`, for `None` or a string value. */
  predicate Unconfigured(value: Option<string>)
  {
    value == None || value == Some("") || value == Some(Placeholder)
  }

  /** The attribute exists and holds a real value. */
  predicate Configured(config: map<string, Option<string>>, name: string)
  {
    name in config && !Unconfigured(config[name])
  }

  /** The error, if any, that one attribute contributes. */
  function ErrorFor(config: map<string, Option<string>>, name: string): (r: seq<ConfigError>)
    ensures |r| <= 1 && forall e :: e in r ==> e.name == name
  {
    if name !in config then [Missing(name)]
    else if Unconfigured(config[name]) then [NotConfigured(name)]
    else []
  }

  /** The errors recorded after checking the attributes `vars` in order. */
  function ErrorsOf(vars: seq<string>, config: map<string, Option<string>>): (r: seq<ConfigError>)
    ensures |r| <= |vars|
  {
    if vars == [] then [] else ErrorsOf(vars[..|vars| - 1], config) + ErrorFor(config, vars[|vars| - 1])
  }

  /** Every recorded error names a checked attribute; an attribute is reported
      missing exactly when the module lacks it, and unconfigured exactly when it
      is there with a falsy or placeholder value. */
  lemma {:induction false} ErrorsOfMembers(vars: seq<string>, config: map<string, Option<string>>)
    ensures forall e :: e in ErrorsOf(vars, config) ==> e.name in vars
    ensures forall name :: Missing(name) in ErrorsOf(vars, config) <==> name in vars && name !in config
    ensures forall name :: NotConfigured(name) in ErrorsOf(vars, config) <==>
      name in vars && name in config && Unconfigured(config[name])
  {
    if vars != [] {
      var n := |vars| - 1;
      ErrorsOfMembers(vars[..n], config);
      assert vars == vars[..n] + [vars[n]];
    }
  }

  /** There are no errors exactly when every checked attribute is configured. */
  lemma {:induction false} ErrorsOfEmptyIff(vars: seq<string>, config: map<string, Option<string>>)
    ensures ErrorsOf(vars, config) == [] <==> forall name :: name in vars ==> Configured(config, name)
  {
    if vars != [] {
      var n := |vars| - 1;
      ErrorsOfEmptyIff(vars[..n], config);
      assert ErrorsOf(vars, config) == ErrorsOf(vars[..n], config) + ErrorFor(config, vars[n]);
      assert ErrorFor(config, vars[n]) == [] <==> Configured(config, vars[n]);
      assert forall name :: name in vars <==> name in vars[..n] || name == vars[n] by {
        assert vars == vars[..n] + [vars[n]];
      }
    }
  }

  /** Every recorded error names one of the checked attributes. */
  lemma {:induction false} ErrorsOfNames(vars: seq<string>, config: map<string, Option<string>>)
    ensures forall k :: 0 <= k < |ErrorsOf(vars, config)| ==> ErrorsOf(vars, config)[k].name in vars
  {
    if vars != [] {
      var n := |vars| - 1;
      var r, before := ErrorsOf(vars, config), ErrorsOf(vars[..n], config);
      ErrorsOfNames(vars[..n], config);
      assert r == before + ErrorFor(config, vars[n]);
      forall k | 0 <= k < |r|
        ensures r[k].name in vars
      {
        if k < |before| {
          assert r[k] == before[k] && before[k].name in vars[..n];
        } else {
          assert r[k] in ErrorFor(config, vars[n]);
        }
      }
    }
  }

  /** The errors name attributes of `vars`, each later error a later attribute. */
  predicate InCheckingOrder(vars: seq<string>, r: seq<ConfigError>)
  {
    forall i, j :: 0 <= i < j < |r| ==>
      r[i].name in vars && r[j].name in vars && IndexOf(vars, r[i].name) < IndexOf(vars, r[j].name)
  }

  /** Over a list without repetitions, errors come in the order their attributes are checked. */
  lemma {:induction false} ErrorsOfOrder(vars: seq<string>, config: map<string, Option<string>>)
    requires Distinct(vars)
    ensures InCheckingOrder(vars, ErrorsOf(vars, config))
  {
    ErrorsOfNames(vars, config);
    if vars != [] {
      var n := |vars| - 1;
      var r, before := ErrorsOf(vars, config), ErrorsOf(vars[..n], config);
      assert r == before + ErrorFor(config, vars[n]);
      assert Distinct(vars[..n]);
      ErrorsOfOrder(vars[..n], config);
      ErrorsOfNames(vars[..n], config);
      IndexOfDistinct(vars, n);
      forall i, j | 0 <= i < j < |r|
        ensures IndexOf(vars, r[i].name) < IndexOf(vars, r[j].name)
      {
        assert r[i] == before[i] && before[i].name in vars[..n];
        IndexOfPrefix(vars, n, r[i].name);
        if j < |before| {
          assert r[j] == before[j] && before[j].name in vars[..n];
          IndexOfPrefix(vars, n, r[j].name);
        } else {
          assert r[j] in ErrorFor(config, vars[n]);
        }
      }
    }
  }

  /** `check_config`: checks the attributes in order, collects the errors, and
      succeeds exactly when there are none, i.e. when every required attribute
      is configured. */
  method CheckConfig(config: map<string, Option<string>>) returns (ok: bool, errors: seq<ConfigError>)
    ensures errors == ErrorsOf(RequiredVars, config)
    ensures ok <==> errors == []
    ensures ok <==> forall name :: name in RequiredVars ==> Configured(config, name)
  {
    errors := [];
    for i := 0 to |RequiredVars|
      invariant errors == ErrorsOf(RequiredVars[..i], config)
    {
      assert RequiredVars[..i + 1][..i] == RequiredVars[..i];
      var name := RequiredVars[i];
      if name !in config {
        errors := errors + [Missing(name)];
      } else {
        var value := config[name];
        if value == None || value == Some("") || value == Some(Placeholder) {
          errors := errors + [NotConfigured(name)];
        }
      }
    }
    assert RequiredVars[..|RequiredVars|] == RequiredVars;
    ErrorsOfEmptyIff(RequiredVars, config);
    ok := errors == [];
  }

  /** The lines of the final summary that name a failing check. */
  datatype Problem = CredentialsProblem | ConfigProblem

  /** `main`: runs both checks whatever the first one says, lists the failing
      ones, and succeeds exactly when both succeed. */
  method RunChecks(env: Option<string>, fs: FileSystem, config: map<string, Option<string>>)
    returns (ok: bool, credentialsOk: bool, configErrors: seq<ConfigError>, problems: seq<Problem>)
    ensures credentialsOk == CheckGoogleCredentials(env, fs)
    ensures configErrors == ErrorsOf(RequiredVars, config)
    ensures ok <==> credentialsOk && forall name :: name in RequiredVars ==> Configured(config, name)
    ensures ok <==> problems == []
    ensures CredentialsProblem in problems <==> !credentialsOk
    ensures ConfigProblem in problems <==> configErrors != []
    ensures |problems| <= 2 && (problems != [] && !credentialsOk ==> problems[0] == CredentialsProblem)
  {
    credentialsOk := CheckGoogleCredentials(env, fs);
    var configOk;
    configOk, configErrors := CheckConfig(config);
    ok := credentialsOk && configOk;
    problems := [];
    if !ok {
      if !credentialsOk {
        problems := problems + [CredentialsProblem];
      }
      if !configOk {
        problems := problems + [ConfigProblem];
      }
    }
  }
}
