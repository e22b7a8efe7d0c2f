/**
  What the generated file does at load time: `setDefaultEnv` walks the
  `defaults` map and sets every variable whose current value is "" to its
  default. The process environment is a map from name to value; a name
  absent from it reads as "", as with `os.Getenv`. `os.Setenv` on Unix
  refuses (with EINVAL, changing nothing) an empty name, a name holding `=`
  or NUL, and a value holding NUL; `setDefaultEnv` ignores that error.
 */
module Consumer {

  /** `os.Getenv` on the environment `e`: "" for a name `e` lacks, and always for the empty name. */
  function EnvLookup(e: map<string, string>, k: string): (v: string)
    ensures v != "" ==> k != "" && k in e && e[k] == v
    ensures k != "" && k in e ==> v == e[k]
  {
    if k != "" && k in e then e[k] else ""
  }

  /** Whether `os.Setenv(k, v)` succeeds on Unix. */
  predicate Settable(k: string, v: string)
  {
    k != "" && '=' !in k && '\0' !in k && '\0' !in v
  }

  /** Whether `setDefaultEnv` on `e` gives `k` the default from `defaults`. */
  predicate Fills(e: map<string, string>, defaults: map<string, string>, k: string)
  {
    k in defaults && EnvLookup(e, k) == "" && Settable(k, defaults[k])
  }

  /** The environment after `setDefaultEnv` has run on `e` with `defaults`. */
  function Seeded(e: map<string, string>, defaults: map<string, string>): (r: map<string, string>)
    ensures e.Keys <= r.Keys <= e.Keys + defaults.Keys
  {
    map k | k in e.Keys + defaults.Keys && (k in e || Fills(e, defaults, k)) ::
      if Fills(e, defaults, k) then defaults[k] else e[k]
  }

  /** The process environment seen by the generated program. */
  class Process {
    var env: map<string, string>

    constructor (initial: map<string, string>)
      ensures env == initial
    {
      env := initial;
    }

    /** `os.Getenv(k)`. */
    function Getenv(k: string): (v: string)
      reads this
      ensures v != "" ==> k != "" && k in env && env[k] == v
    {
      EnvLookup(env, k)
    }

    /** `os.Setenv(k, v)`: `ok` is false, and nothing changes, when Unix refuses the pair. */
    method Setenv(k: string, v: string) returns (ok: bool)
      modifies this
      ensures ok == Settable(k, v)
      ensures env == if ok then old(env)[k := v] else old(env)
    {
      ok := Settable(k, v);
      if ok {
        env := env[k := v];
      }
    }

    /** `setDefaultEnv()`, over the map `defaults` in Go's unspecified order. */
    method SetDefaultEnv(defaults: map<string, string>)
      modifies this
      ensures env == Seeded(old(env), defaults)
    {
      var rest := defaults.Keys;
      ghost var done: set<string> := {};
      while rest != {}
        invariant rest + done == defaults.Keys && rest !! done
        invariant env == Seeded(old(env), Restrict(defaults, done))
        decreases rest
      {
        var k :| k in rest;
        SeededStep(old(env), defaults, done, k);
        if Getenv(k) == "" {
          var _ := Setenv(k, defaults[k]);
        }
        rest := rest - {k};
        done := done + {k};
      }
      assert Restrict(defaults, done) == defaults;
    }
  }

  /** The entries of `m` whose keys lie in `keys`. */
  function Restrict(m: map<string, string>, keys: set<string>): map<string, string>
  {
    map k | k in keys && k in m :: m[k]
  }

  /** Taking one more default into account changes at most its own variable. */
  lemma SeededStep(e: map<string, string>, defaults: map<string, string>, done: set<string>, k: string)
    requires k in defaults && k !in done
    ensures var s := Seeded(e, Restrict(defaults, done));
      Seeded(e, Restrict(defaults, done + {k})) ==
        if EnvLookup(s, k) == "" && Settable(k, defaults[k]) then s[k := defaults[k]] else s
  {
    var d0, d1 := Restrict(defaults, done), Restrict(defaults, done + {k});
    var s, t := Seeded(e, d0), Seeded(e, d1);
    var u := if EnvLookup(s, k) == "" && Settable(k, defaults[k]) then s[k := defaults[k]] else s;
    assert EnvLookup(s, k) == EnvLookup(e, k);
    forall j | j != k
      ensures (j in t) == (j in s) && (j in t ==> t[j] == s[j])
    {
      assert Fills(e, d1, j) == Fills(e, d0, j);
    }
    assert Fills(e, d1, k) == (EnvLookup(s, k) == "" && Settable(k, defaults[k]));
    assert t.Keys == u.Keys;
  }

  /** A variable that was "" and has a default `os.Setenv` accepts now holds the default. */
  lemma SeededFillsEmpty(e: map<string, string>, defaults: map<string, string>, k: string)
    requires k in defaults && EnvLookup(e, k) == "" && Settable(k, defaults[k])
    ensures EnvLookup(Seeded(e, defaults), k) == defaults[k]
  {
  }

  /** A variable that was non-empty keeps its value. */
  lemma SeededKeepsSet(e: map<string, string>, defaults: map<string, string>, k: string)
    requires EnvLookup(e, k) != ""
    ensures k in Seeded(e, defaults) && Seeded(e, defaults)[k] == e[k]
  {
  }

  /**
    A variable without a default, or whose default `os.Setenv` refuses, is
    left as it was, present or absent.
   */
  lemma SeededOutsideDefaults(e: map<string, string>, defaults: map<string, string>, k: string)
    requires k !in defaults || !Settable(k, defaults[k])
    ensures (k in Seeded(e, defaults)) == (k in e)
    ensures k in e ==> Seeded(e, defaults)[k] == e[k]
  {
  }

  /** A default captured from an entry `=x` has the empty name and is never set. */
  lemma EmptyNameNeverSet(e: map<string, string>, v: string)
    ensures Seeded(e, map["" := v]) == e
  {
    assert !Settable("", v);
  }

  /** Running `setDefaultEnv` a second time changes nothing. */
  lemma SeededIdempotent(e: map<string, string>, defaults: map<string, string>)
    ensures Seeded(Seeded(e, defaults), defaults) == Seeded(e, defaults)
  {
  }
}
