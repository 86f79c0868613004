/** `DetectEnvironment` and `Current` (env/env.go): classify the ENV variable,
    case-insensitively, as production, testing or development. */
module Environment {
  const Variable := "ENV"

  /** The three environment types; `Name` is the Go constant's string value. */
  datatype Kind = Production | Testing | Development {
    function Name(): string {
      match this
      case Production => "production"
      case Testing => "testing"
      case Development => "development"
    }
  }

  const DevelopmentNames: set<string> := {"dev", "development", "local"}
  const TestingNames: set<string> := {"test", "testing"}

  /** ASCII lower-casing of one character. */
  function LowerChar(c: char): (d: char)
    ensures 'A' <= c <= 'Z' ==> d as int == c as int + 32
    ensures !('A' <= c <= 'Z') ==> d == c
  {
    if 'A' <= c <= 'Z' then (c as int + 32) as char else c
  }

  /** `strings.ToLower`, on ASCII letters. */
  function ToLower(s: string): (r: string)
    ensures |r| == |s| && forall i :: 0 <= i < |s| ==> r[i] == LowerChar(s[i])
  {
    seq(|s|, i requires 0 <= i < |s| => LowerChar(s[i]))
  }

  predicate IsLower(s: string) {
    forall i :: 0 <= i < |s| ==> !('A' <= s[i] <= 'Z')
  }

  /** Lower-casing leaves no upper-case letter behind and is idempotent. */
  lemma ToLowerNormalizes(s: string)
    ensures IsLower(ToLower(s)) && ToLower(ToLower(s)) == ToLower(s)
    ensures IsLower(s) ==> ToLower(s) == s
  {
  }

  /** `os.LookupEnv("ENV")` with its flag dropped: unset reads as "". */
  function Lookup(env: map<string, string>): (v: string)
    // the value as set, and "" when unset
    ensures Variable in env ==> v == env[Variable]
    ensures Variable !in env ==> v == ""
  {
    if Variable in env then env[Variable] else ""
  }

  /** `DetectEnvironment()`. */
  function DetectEnvironment(env: map<string, string>): (k: Kind)
    // the aliases of each type, compared after lower-casing; everything else fails closed
    ensures k == Development <==> ToLower(Lookup(env)) in DevelopmentNames
    ensures k == Testing <==> ToLower(Lookup(env)) in TestingNames
    ensures k == Production <==> ToLower(Lookup(env)) !in DevelopmentNames + TestingNames
  {
    var v := ToLower(Lookup(env));
    if v in DevelopmentNames then Development
    else if v in TestingNames then Testing
    else Production
  }

  /** Only the lower-cased value matters: values equal up to ASCII case are
      classified alike, and unset is the same as empty. */
  lemma CaseInsensitive(env: map<string, string>, u: string, v: string)
    requires ToLower(u) == ToLower(v)
    ensures DetectEnvironment(env[Variable := u]) == DetectEnvironment(env[Variable := v])
    ensures Variable !in env ==> DetectEnvironment(env) == DetectEnvironment(env[Variable := ""]) == Production
  {
    assert Lookup(env[Variable := u]) == u && Lookup(env[Variable := v]) == v;
    assert Variable !in env ==> Lookup(env) == "" && ToLower("") == "";
  }

  /** Each type's own name is detected as that type: the string value of a Go
      constant parses back to it. */
  lemma NameRoundTrip(k: Kind, env: map<string, string>)
    ensures DetectEnvironment(env[Variable := k.Name()]) == k
  {
    var n := k.Name();
    assert Lookup(env[Variable := n]) == n;
    ToLowerNormalizes(n);
    assert IsLower(n);
  }

  /** The values the test suite sets, in mixed case as well. */
  lemma KnownValues(env: map<string, string>)
    ensures DetectEnvironment(env[Variable := "DEV"]) == Development
    ensures DetectEnvironment(env[Variable := "Local"]) == Development
    ensures DetectEnvironment(env[Variable := "TeSt"]) == Testing
    ensures DetectEnvironment(env[Variable := "unknown"]) == Production
    ensures DetectEnvironment(env[Variable := "Production"]) == Production
  {
    assert ToLower("DEV") == "dev";
    assert ToLower("Local") == "local";
    assert ToLower("TeSt") == "test";
    assert ToLower("unknown") == "unknown";
    assert ToLower("Production") == "production";
  }

  /** The package's state: `Current`, set once by `init`. */
  class Package {
    var current: Kind

    /** `init()`: detects the environment immediately. */
    constructor(env: map<string, string>)
      ensures current == DetectEnvironment(env)
    {
      current := DetectEnvironment(env);
    }
  }
}
