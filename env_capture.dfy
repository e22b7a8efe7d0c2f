/**
  The capture half of `Transcribe`: building the set of names to ignore and
  collecting every other variable of the process environment into a map.
  The environment is the list `os.Environ()` returns, one `NAME=VALUE`
  string per variable, passed in as a parameter.
 */
module EnvCapture {
  import opened GoStrings
  import opened Configuration

  /** The names that are never captured. */
  const AlwaysIgnore: seq<string> := ["PWD", "SHLVL", "_", "PATH"]

  /** The names to ignore: the fields of the `-ignore` option and the built-in ones. */
  function IgnoreSet(ignore: string): (names: set<string>)
    ensures forall w :: w in AlwaysIgnore ==> w in names
    ensures forall w :: w in names ==> w in AlwaysIgnore || (w != [] && NoSpace(w))
  {
    Elems(Fields(ignore)) + Elems(AlwaysIgnore)
  }

  /** `strings.SplitN(entry, "=", 2)[0]`: the text before the first `=`, or all of
      `entry` when it has none. */
  function Name(entry: string): (name: string)
    ensures |name| <= |entry| && name == entry[..|name|]
    ensures '=' !in name
    ensures |name| < |entry| ==> entry[|name|] == '='
    decreases |entry|
  {
    if entry == [] || entry[0] == '=' then [] else [entry[0]] + Name(entry[1..])
  }

  /** The text after the first `=`, or "" when there is none. */
  function Value(entry: string): (value: string)
    ensures '=' in entry ==> Name(entry) + "=" + value == entry
    ensures '=' !in entry ==> value == ""
  {
    var n := |Name(entry)|;
    if n < |entry| then
      assert entry == entry[..n] + [entry[n]] + entry[n + 1..];
      entry[n + 1..]
    else ""
  }

  /** Whether `entry` holds a `=` and binds `key` to `value`. */
  predicate Defines(entry: string, key: string, value: string)
  {
    '=' in entry && Name(entry) == key && Value(entry) == value
  }

  /**
    `os.Getenv(key)` over the list `environ`, as Go's runtime does it on Unix:
    the value of the first entry that holds a `=` and is named `key`; "" when
    there is none, and always "" for the empty name.
   */
  function GetenvFrom(environ: seq<string>, key: string): (value: string)
    ensures key == "" ==> value == ""
    ensures value != "" ==> exists i :: 0 <= i < |environ| && Defines(environ[i], key, value)
  {
    if key == "" then "" else EntryLookup(environ, key)
  }

  /** The value of the first entry of `environ` that holds a `=` and is named `key`. */
  function EntryLookup(environ: seq<string>, key: string): (value: string)
    ensures value != "" ==> exists i :: 0 <= i < |environ| && Defines(environ[i], key, value)
    decreases |environ|
  {
    if environ == [] then ""
    else if '=' in environ[0] && Name(environ[0]) == key then Value(environ[0])
    else
      var value := EntryLookup(environ[1..], key);
      assert value != "" ==> exists i :: 1 <= i < |environ| && Defines(environ[i], key, value) by {
        if value != "" {
          var j :| 0 <= j < |environ[1..]| && Defines(environ[1..][j], key, value);
          assert environ[1..][j] == environ[j + 1];
        }
      }
      value
  }

  /** The names of the entries of `environ`. */
  function Names(environ: seq<string>): set<string>
  {
    set entry | entry in environ :: Name(entry)
  }

  /**
    The map that the capture loop has built once it has seen `entries`, a
    prefix of `environ`: each entry's name, unless ignored, bound to the
    name's value in `environ`.
   */
  function Captured(entries: seq<string>, environ: seq<string>, ignore: set<string>): (env: map<string, string>)
    ensures forall k :: k in env ==> k !in ignore && env[k] == GetenvFrom(environ, k)
    decreases |entries|
  {
    if entries == [] then map[]
    else
      var prev := Captured(entries[..|entries| - 1], environ, ignore);
      var key := Name(entries[|entries| - 1]);
      if key in ignore then prev else prev[key := GetenvFrom(environ, key)]
  }

  /** What `Transcribe` captures from `environ`, leaving out the names in `ignore`. */
  function Snapshot(environ: seq<string>, ignore: set<string>): (env: map<string, string>)
    ensures env.Keys == Names(environ) - ignore
    ensures forall k :: k in env ==> env[k] == GetenvFrom(environ, k)
  {
    CapturedKeys(environ, environ, ignore);
    Captured(environ, environ, ignore)
  }

  /**
    The capture loops of `Transcribe`: the `ignore` map gets every field of
    the `-ignore` option and every built-in name; then every entry of the
    environment whose name is not ignored is put into `env`.
   */
  method CaptureEnvironment(c: Config, environ: seq<string>) returns (env: map<string, string>)
    ensures env == Snapshot(environ, IgnoreSet(c.ignore))
  {
    var fields := Fields(c.ignore);
    var ignore: map<string, bool> := map[];
    for i := 0 to |fields|
      invariant ignore.Keys == Elems(fields[..i])
      invariant forall k :: k in ignore ==> ignore[k]
    {
      assert fields[..i + 1] == fields[..i] + [fields[i]];
      ignore := ignore[fields[i] := true];
    }
    assert fields[..|fields|] == fields;
    for i := 0 to |AlwaysIgnore|
      invariant ignore.Keys == Elems(fields) + Elems(AlwaysIgnore[..i])
      invariant forall k :: k in ignore ==> ignore[k]
    {
      assert AlwaysIgnore[..i + 1] == AlwaysIgnore[..i] + [AlwaysIgnore[i]];
      ignore := ignore[AlwaysIgnore[i] := true];
    }
    assert AlwaysIgnore[..|AlwaysIgnore|] == AlwaysIgnore;
    env := map[];
    for i := 0 to |environ|
      invariant env == Captured(environ[..i], environ, IgnoreSet(c.ignore))
    {
      var key := Name(environ[i]);
      var val := GetenvFrom(environ, key);
      assert environ[..i + 1][..i] == environ[..i];
      if !(key in ignore && ignore[key]) {
        env := env[key := val];
      }
    }
    assert environ[..|environ|] == environ;
  }

  /**
    A name is captured exactly when some entry has that name and it is not
    ignored, and then its value is the one `os.Getenv` gives.
   */
  lemma {:induction false} CapturedKeys(entries: seq<string>, environ: seq<string>, ignore: set<string>)
    ensures Captured(entries, environ, ignore).Keys == Names(entries) - ignore
    ensures forall k :: k in Captured(entries, environ, ignore) ==>
              Captured(entries, environ, ignore)[k] == GetenvFrom(environ, k)
    decreases |entries|
  {
    if entries != [] {
      var init := entries[..|entries| - 1];
      var last := entries[|entries| - 1];
      CapturedKeys(init, environ, ignore);
      assert entries == init + [last];
      assert Names(entries) == Names(init) + {Name(last)};
    }
  }

  /** No ignored name is captured. */
  lemma IgnoredNotCaptured(environ: seq<string>, ignore: set<string>, k: string)
    requires k in ignore
    ensures k !in Snapshot(environ, ignore)
  {
    CapturedKeys(environ, environ, ignore);
  }

  /** Every entry whose name is not ignored is captured. */
  lemma EntryCaptured(environ: seq<string>, ignore: set<string>, i: nat)
    requires i < |environ|
    requires Name(environ[i]) !in ignore
    ensures Name(environ[i]) in Snapshot(environ, ignore)
  {
    CapturedKeys(environ, environ, ignore);
    assert Name(environ[i]) in Names(environ);
  }

  /**
    When an entry holds a `=`, has a non-empty name and no earlier entry
    holding a `=` has that name, the value looked up for its name is the text after its first `=`.
   */
  lemma {:induction false} GetenvIsSuffix(environ: seq<string>, i: nat)
    requires i < |environ|
    requires '=' in environ[i] && Name(environ[i]) != ""
    requires forall j :: 0 <= j < i && '=' in environ[j] ==> Name(environ[j]) != Name(environ[i])
    ensures GetenvFrom(environ, Name(environ[i])) == Value(environ[i])
    decreases i
  {
    var key := Name(environ[i]);
    if i == 0 {
      assert EntryLookup(environ, key) == Value(environ[0]);
    } else {
      var tl := environ[1..];
      assert tl[i - 1] == environ[i];
      forall j | 0 <= j < i - 1 && '=' in tl[j]
        ensures Name(tl[j]) != key
      {
        assert tl[j] == environ[j + 1];
      }
      GetenvIsSuffix(tl, i - 1);
      assert EntryLookup(environ, key) == EntryLookup(tl, key);
    }
  }

  /** A name no entry with a `=` carries has the empty value. */
  lemma {:induction false} GetenvUnset(environ: seq<string>, key: string)
    requires forall j :: 0 <= j < |environ| && '=' in environ[j] ==> Name(environ[j]) != key
    ensures GetenvFrom(environ, key) == ""
    decreases |environ|
  {
    if key != "" && environ != [] {
      GetenvUnset(environ[1..], key);
    }
  }

  /** With the default options only the built-in names are ignored. */
  lemma DefaultIgnoreSet()
    ensures IgnoreSet(NewDefaultConfig().ignore) == {"PWD", "SHLVL", "_", "PATH"}
  {
  }

  /**
    A name written as a word of the `-ignore` option is ignored, wherever it
    stands: first, last or between other words, set off by any white space.
   */
  lemma ListedNameIgnored(a: string, w: string, b: string)
    requires w != [] && NoSpace(w)
    requires a == [] || IsSpace(a[|a| - 1])
    requires b == [] || IsSpace(b[0])
    ensures w in IgnoreSet(a + w + b)
  {
    WordHeadsFields(w, b);
    FieldsAfterSpace(a, w + b, w);
    assert a + w + b == a + (w + b);
  }

  /** With `-ignore FOO`, of `FOO=1`, `BAR=2` and `PWD=/tmp` only `BAR` is captured. */
  lemma IgnoreExample(environ: seq<string>, ignoreFlag: string)
    requires environ == ["FOO=1", "BAR=2", "PWD=/tmp"] && ignoreFlag == "FOO"
    ensures Snapshot(environ, IgnoreSet(ignoreFlag)) == map["BAR" := "2"]
  {
    var snap := Snapshot(environ, IgnoreSet(ignoreFlag));
    ExampleKeys(environ, ignoreFlag);
    ExampleValue(environ);
    assert snap["BAR"] == "2";
  }

  lemma ExampleKeys(environ: seq<string>, ignoreFlag: string)
    requires environ == ["FOO=1", "BAR=2", "PWD=/tmp"] && ignoreFlag == "FOO"
    ensures Snapshot(environ, IgnoreSet(ignoreFlag)).Keys == {"BAR"}
  {
    IgnoreOfFoo();
    NamesOfExample();
    ExampleDifference(Names(environ), IgnoreSet(ignoreFlag));
  }

  lemma ExampleDifference(names: set<string>, ignore: set<string>)
    requires names == {"FOO", "BAR", "PWD"} && ignore == {"FOO", "PWD", "SHLVL", "_", "PATH"}
    ensures names - ignore == {"BAR"}
  {
  }

  lemma ExampleValue(environ: seq<string>)
    requires environ == ["FOO=1", "BAR=2", "PWD=/tmp"]
    ensures GetenvFrom(environ, "BAR") == "2"
  {
    NameBefore(environ[0], 3);
    NameBefore(environ[1], 3);
    assert environ[0][..3] == "FOO" && environ[1][..3] == "BAR";
    assert environ[1][4..] == "2";
    GetenvIsSuffix(environ, 1);
  }

  lemma IgnoreOfFoo()
    ensures IgnoreSet("FOO") == {"FOO", "PWD", "SHLVL", "_", "PATH"}
  {
    FieldsOfWord("FOO");
  }

  /** The name of an entry whose first `=` is at position `i` is the text before it. */
  lemma NameBefore(entry: string, i: nat)
    requires i < |entry| && entry[i] == '=' && '=' !in entry[..i]
    ensures Name(entry) == entry[..i]
  {
  }

  lemma NamesOfExample()
    ensures Names(["FOO=1", "BAR=2", "PWD=/tmp"]) == {"FOO", "BAR", "PWD"}
  {
    var environ := ["FOO=1", "BAR=2", "PWD=/tmp"];
    NameBefore(environ[0], 3);
    NameBefore(environ[1], 3);
    NameBefore(environ[2], 3);
    assert environ[0][..3] == "FOO" && environ[1][..3] == "BAR" && environ[2][..3] == "PWD";
    assert forall e :: e in environ ==> e == environ[0] || e == environ[1] || e == environ[2];
    assert Name(environ[0]) in Names(environ);
    assert Name(environ[1]) in Names(environ);
    assert Name(environ[2]) in Names(environ);
  }
}
