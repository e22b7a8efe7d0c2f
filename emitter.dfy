/**
  `writeRelease` and `writeDev`: rendering the captured map as the body of
  the `defaults` map literal, and the Go source file that carries it.
  `ParseDefaults` is the reader of that body that the round-trip lemmas
  are stated with.
 */
module Emitter {
  import opened Wrappers
  import opened GoStrings
  import opened GoSort
  import opened GoQuote
  import opened Configuration

  /** `fmt.Sprintf("\t%q: %q,", k, v)`: the line of the literal for one entry. */
  function Line(k: string, v: string): string
  {
    "\t" + Quote(k) + ": " + Quote(v) + ","
  }

  /** The lines of the entries of `env` whose keys lie in `keys`. */
  function LinesOf(env: map<string, string>, keys: set<string>): set<string>
  {
    set k | k in keys && k in env :: Line(k, env[k])
  }

  /** The lines of all entries of `env`. */
  function LineSet(env: map<string, string>): set<string>
  {
    LinesOf(env, env.Keys)
  }

  /** The lines of `env` in ascending order, as `sort.Strings` leaves them. */
  ghost function SortedLines(env: map<string, string>): seq<string>
  {
    SortedOf(LineSet(env))
  }

  /**
    The text put between the braces of `var defaults = map[string]string{...}`:
    "" for an empty map; otherwise a newline, the sorted lines joined by
    newlines, and a final newline.
   */
  ghost function DefaultsMapExpr(env: map<string, string>): (r: string)
    ensures r == "" <==> |env| == 0
  {
    if |env| == 0 then ""
    else "\n" + Join(SortedLines(env), "\n") + "\n"
  }

  /** The head of the generated file, with the package name in its three places. */
  function Header(pkg: string): (r: string)
    ensures |r| == 206 + 3 * |pkg|
  {
    "// Package " + pkg + " sets default values for environment variables.\n" +
    "// Usage: in any package that calls os.Getenv or references the environment, include:\n" +
    "//\n" +
    "//     import _ \"full/path/to/" + pkg + "\"\n" +
    "//\n" +
    "package " + pkg + "\n" +
    "\n" +
    "import \"os\"\n" +
    "\n"
  }

  /** The text of the `defaults` declaration before its body. */
  const DeclOpen: string := "var defaults = map[string]string{"

  /** The text of the `defaults` declaration after its body. */
  const DeclClose: string := "}\n\n"

  /** The declaration of the `defaults` map, with `defaultsMapExpr` between its braces. */
  function DefaultsDecl(defaultsMapExpr: string): (r: string)
    ensures |r| == |DeclOpen| + |defaultsMapExpr| + |DeclClose|
    ensures r[|DeclOpen|..|DeclOpen| + |defaultsMapExpr|] == defaultsMapExpr
  {
    DeclOpen + defaultsMapExpr + DeclClose
  }

  /** The initializer the generated file runs at load time; `Consumer` models what it does. */
  const Initializer: string :=
    "func init() {\n" +
    "\tsetDefaultEnv()\n" +
    "}\n" +
    "\n" +
    "func setDefaultEnv() {\n" +
    "\tfor k, v := range defaults {\n" +
    "\t\tif os.Getenv(k) == \"\" {\n" +
    "\t\t\tos.Setenv(k, v)\n" +
    "\t\t}\n" +
    "\t}\n" +
    "}\n"

  /** The file `writeRelease` prints: the template with its four holes filled. */
  function Template(pkg: string, defaultsMapExpr: string): (r: string)
    ensures |Header(pkg)| <= |r| && r[..|Header(pkg)|] == Header(pkg)
    ensures |Initializer| <= |r| && r[|r| - |Initializer|..] == Initializer
  {
    Header(pkg) + DefaultsDecl(defaultsMapExpr) + Initializer
  }

  /**
    Reads a generated file of package `pkg` back: the text between the braces
    of `defaults` when `file` has the template's fixed parts, None otherwise.
   */
  function TemplateBody(pkg: string, file: string): (r: Option<string>)
    ensures r.Some? ==> Template(pkg, r.value) == file
  {
    var pre := Header(pkg) + DeclOpen;
    var post := DeclClose + Initializer;
    if |pre| + |post| <= |file| && file[..|pre|] == pre && file[|file| - |post|..] == post then
      var body := file[|pre|..|file| - |post|];
      Reassemble(file, |pre|, |file| - |post|);
      TemplateSplit(pkg, body);
      Some(body)
    else None
  }

  /** A string is its three pieces cut at `m` and `n`. */
  lemma Reassemble(s: string, m: nat, n: nat)
    requires m <= n <= |s|
    ensures s[..m] + s[m..n] + s[n..] == s
  {
  }

  /** The template is the fixed text before the body, the body, and the fixed text after it. */
  lemma TemplateSplit(pkg: string, defaultsMapExpr: string)
    ensures Template(pkg, defaultsMapExpr) ==
      (Header(pkg) + DeclOpen) + defaultsMapExpr + (DeclClose + Initializer)
  {
  }

  /** The file for package `pkg` whose defaults are `env`. */
  ghost function ReleaseFile(pkg: string, env: map<string, string>): string
  {
    Template(pkg, DefaultsMapExpr(env))
  }

  // ---------------------------------------------------------------------
  // The operations
  // ---------------------------------------------------------------------

  /**
    The loop of `writeRelease` that appends one line per entry of `env` to
    `kvExprs`, in Go's unspecified map order: the result holds each line of
    `env` exactly once.
   */
  method RenderEntries(env: map<string, string>) returns (kvExprs: seq<string>)
    ensures multiset(kvExprs) == multiset(LineSet(env))
  {
    kvExprs := [];
    var rest := env.Keys;
    ghost var done: set<string> := {};
    while rest != {}
      invariant rest + done == env.Keys && rest !! done
      invariant multiset(kvExprs) == multiset(LinesOf(env, done))
      decreases rest
    {
      var k :| k in rest;
      AddLine(env, done, k);
      kvExprs := kvExprs + [Line(k, env[k])];
      rest := rest - {k};
      done := done + {k};
    }
    assert done == env.Keys;
  }

  /**
    `writeRelease(w, c, env)`: the file it writes. Although the lines come
    out of the map in any order, the text is the same function of `env`.
   */
  method WriteRelease(c: Config, env: map<string, string>) returns (out: string)
    ensures out == ReleaseFile(c.pkg, env)
  {
    var defaultsMapExpr: string;
    if |env| == 0 {
      defaultsMapExpr := "";
    } else {
      var kvExprs := RenderEntries(env);
      var a := new string[|kvExprs|](i requires 0 <= i < |kvExprs| => kvExprs[i]);
      assert a[..] == kvExprs;
      SortStrings(a);
      SortedUnique(a[..], SortedLines(env));
      defaultsMapExpr := "\n" + Join(a[..], "\n") + "\n";
    }
    out := Template(c.pkg, defaultsMapExpr);
  }

  /** `writeDev(w, c)`: the file for package `c.pkg` with no defaults. */
  method WriteDev(c: Config) returns (out: string)
    ensures out == ReleaseFile(c.pkg, map[])
  {
    out := WriteRelease(c, map[]);
  }

  // ---------------------------------------------------------------------
  // Reading the literal back
  // ---------------------------------------------------------------------

  /** Reads one line `\t"k": "v",` and its newline: the entry and what follows. */
  function ParseEntry(s: string): (r: Option<((string, string), string)>)
    ensures r.Some? ==> |r.value.1| < |s|
  {
    if s == [] || s[0] != '\t' then None
    else
      match ParseQuoted(s[1..])
      case None => None
      case Some((k, r1)) =>
        if |r1| < 2 || r1[..2] != ": " then None
        else
          match ParseQuoted(r1[2..])
          case None => None
          case Some((v, r2)) =>
            if |r2| < 2 || r2[..2] != ",\n" then None
            else Some(((k, v), r2[2..]))
  }

  /** Reads a sequence of newline-terminated lines into a map. */
  function ParseEntries(s: string): Option<map<string, string>>
    decreases |s|
  {
    if s == [] then Some(map[])
    else
      match ParseEntry(s)
      case None => None
      case Some(((k, v), rest)) =>
        match ParseEntries(rest)
        case None => None
        case Some(m) => Some(m[k := v])
  }

  /** Reads the text between the braces of the `defaults` literal into a map. */
  function ParseDefaults(d: string): Option<map<string, string>>
  {
    if d == [] then Some(map[])
    else if d[0] == '\n' then ParseEntries(d[1..])
    else None
  }

  // ---------------------------------------------------------------------
  // Lemmas
  // ---------------------------------------------------------------------

  /** A line followed by a newline is read back as its entry. */
  lemma ParseLine(k: string, v: string, rest: string)
    ensures ParseEntry(Line(k, v) + "\n" + rest) == Some(((k, v), rest))
  {
    var s := Line(k, v) + "\n" + rest;
    var t2 := ",\n" + rest;
    var t1 := ": " + (Quote(v) + t2);
    assert s == "\t" + (Quote(k) + t1);
    assert s[1..] == Quote(k) + t1;
    ParseQuote(k, t1);
    assert t1[..2] == ": ";
    assert t1[2..] == Quote(v) + t2;
    ParseQuote(v, t2);
    assert t2[..2] == ",\n";
    assert t2[2..] == rest;
  }

  /** Different entries render as different lines. */
  lemma LineInjective(k1: string, v1: string, k2: string, v2: string)
    requires Line(k1, v1) == Line(k2, v2)
    ensures k1 == k2 && v1 == v2
  {
    ParseLine(k1, v1, "");
    ParseLine(k2, v2, "");
  }

  /** No line of the literal contains a newline, so each entry takes exactly one line. */
  lemma LineIsOneLine(k: string, v: string)
    ensures '\n' !in Line(k, v)
  {
    var l := Line(k, v);
    assert l == "\t" + Quote(k) + (": " + Quote(v) + ",");
    assert forall i :: 0 <= i < |Quote(k)| ==> l[1 + i] == Quote(k)[i];
    assert forall i :: 0 <= i < |Quote(v)| ==> l[3 + |Quote(k)| + i] == Quote(v)[i];
  }

  /** Adding the entry for a key not yet rendered adds one new line. */
  lemma AddLine(env: map<string, string>, done: set<string>, k: string)
    requires k in env && k !in done
    ensures Line(k, env[k]) !in LinesOf(env, done)
    ensures multiset(LinesOf(env, done + {k})) == multiset(LinesOf(env, done)) + multiset{Line(k, env[k])}
  {
    if Line(k, env[k]) in LinesOf(env, done) {
      var j :| j in done && j in env && Line(j, env[j]) == Line(k, env[k]);
      LineInjective(j, env[j], k, env[k]);
    }
    assert LinesOf(env, done + {k}) == LinesOf(env, done) + {Line(k, env[k])};
  }

  /**
    The sorted lines of `env` are in ascending order, hold each entry's line
    exactly once and nothing else.
   */
  lemma SortedLinesSpec(env: map<string, string>)
    ensures Sorted(SortedLines(env))
    ensures forall k :: k in env ==> multiset(SortedLines(env))[Line(k, env[k])] == 1
    ensures forall l :: l in SortedLines(env) ==> exists k :: k in env && l == Line(k, env[k])
  {
    var ls := SortedLines(env);
    assert multiset(ls) == multiset(LineSet(env));
    forall l | l in ls
      ensures exists k :: k in env && l == Line(k, env[k])
    {
      assert l in multiset(ls);
      assert l in LineSet(env);
    }
    forall k | k in env
      ensures multiset(ls)[Line(k, env[k])] == 1
    {
      assert Line(k, env[k]) in LineSet(env);
    }
  }

  /** The lines of `env` in any order, once sorted, give the text of the literal. */
  lemma DefaultsFromAnyOrder(env: map<string, string>, lines: seq<string>)
    requires |env| > 0
    requires Sorted(lines) && multiset(lines) == multiset(LineSet(env))
    ensures DefaultsMapExpr(env) == "\n" + Join(lines, "\n") + "\n"
  {
    SortedUnique(lines, SortedLines(env));
  }

  /** The entries of `env` whose lines occur in `lines`. */
  function EntriesOf(env: map<string, string>, lines: seq<string>): map<string, string>
  {
    map k | k in env && Line(k, env[k]) in lines :: env[k]
  }

  /** Reading a line in front of lines already read adds its entry. */
  lemma ParseEntriesStep(k: string, v: string, rest: string, m: map<string, string>)
    requires ParseEntries(rest) == Some(m)
    ensures ParseEntries(Line(k, v) + "\n" + rest) == Some(m[k := v])
  {
    ParseLine(k, v, rest);
  }

  /** The entries of one more line are those of the others and the line's own. */
  lemma EntriesOfCons(env: map<string, string>, k0: string, tail: seq<string>)
    requires k0 in env
    ensures EntriesOf(env, [Line(k0, env[k0])] + tail) == EntriesOf(env, tail)[k0 := env[k0]]
  {
    var lines := [Line(k0, env[k0])] + tail;
    forall k | k in env
      ensures (Line(k, env[k]) in lines) <==> (k == k0 || Line(k, env[k]) in tail)
    {
      if Line(k, env[k]) == Line(k0, env[k0]) {
        LineInjective(k, env[k], k0, env[k0]);
      }
    }
  }

  /** Reading newline-terminated lines of `env` gives back the entries they render. */
  lemma {:induction false} ParseLines(env: map<string, string>, lines: seq<string>)
    requires Elems(lines) <= LineSet(env)
    ensures ParseEntries(Terminated(lines)) == Some(EntriesOf(env, lines))
    decreases |lines|
  {
    if lines == [] {
      assert EntriesOf(env, lines) == map[];
    } else {
      var l := lines[0];
      assert l in LineSet(env);
      var k0 :| k0 in env && l == Line(k0, env[k0]);
      var tail := lines[1..];
      assert Elems(tail) <= Elems(lines);
      ParseLines(env, tail);
      assert Terminated(lines) == Line(k0, env[k0]) + "\n" + Terminated(tail);
      ParseEntriesStep(k0, env[k0], Terminated(tail), EntriesOf(env, tail));
      assert lines == [l] + tail;
      EntriesOfCons(env, k0, tail);
    }
  }

  /** The sorted lines hold exactly the lines of `env`, so they give all its entries back. */
  lemma SortedLinesElems(env: map<string, string>)
    ensures Elems(SortedLines(env)) == LineSet(env)
    ensures EntriesOf(env, SortedLines(env)) == env
  {
    var ls := SortedLines(env);
    SameElems(ls, LineSet(env));
    EntriesOfAllLines(env, ls);
  }

  /** Lines that hold every entry's line give back every entry. */
  lemma EntriesOfAllLines(env: map<string, string>, ls: seq<string>)
    requires Elems(ls) == LineSet(env)
    ensures EntriesOf(env, ls) == env
  {
    forall k | k in env
      ensures Line(k, env[k]) in ls
    {
      assert Line(k, env[k]) in LineSet(env);
    }
    assert EntriesOf(env, ls).Keys == env.Keys;
  }

  /** A sequence with the multiset of a set holds exactly that set's elements. */
  lemma SameElems(ls: seq<string>, s: set<string>)
    requires multiset(ls) == multiset(s)
    ensures Elems(ls) == s
  {
    forall l | l in ls
      ensures l in s
    {
      assert l in multiset(ls);
    }
    forall l | l in s
      ensures l in ls
    {
      assert l in multiset(s);
    }
  }

  /** The wrapped form of non-empty lines is read as the lines themselves. */
  lemma ParseWrapped(ls: seq<string>)
    requires ls != []
    ensures ParseDefaults("\n" + Join(ls, "\n") + "\n") == ParseEntries(Terminated(ls))
  {
    var d := "\n" + Join(ls, "\n") + "\n";
    JoinTerminated(ls);
    assert d == "\n" + (Join(ls, "\n") + "\n");
    assert d[1..] == Terminated(ls);
  }

  /** Reading the literal's text back gives exactly the map it was rendered from. */
  lemma DefaultsRoundTrip(env: map<string, string>)
    ensures ParseDefaults(DefaultsMapExpr(env)) == Some(env)
  {
    if |env| == 0 {
      assert env == map[];
    } else {
      var ls := SortedLines(env);
      SortedLinesElems(env);
      var k :| k in env;
      assert Line(k, env[k]) in Elems(ls);
      ParseWrapped(ls);
      ParseLines(env, ls);
    }
  }

  /** An empty map renders as nothing, so the literal reads `map[string]string{}`. */
  lemma EmptyDefaults(pkg: string)
    ensures DefaultsDecl(DefaultsMapExpr(map[])) == "var defaults = map[string]string{}\n\n"
    ensures ReleaseFile(pkg, map[]) == Header(pkg) + "var defaults = map[string]string{}\n\n" + Initializer
  {
  }

  /** Reading a generated file back gives the body it was filled with. */
  lemma TemplateRoundTrip(pkg: string, defaultsMapExpr: string)
    ensures TemplateBody(pkg, Template(pkg, defaultsMapExpr)) == Some(defaultsMapExpr)
  {
    var pre := Header(pkg) + DeclOpen;
    var post := DeclClose + Initializer;
    var file := Template(pkg, defaultsMapExpr);
    assert file == pre + defaultsMapExpr + post;
    assert file[..|pre|] == pre;
    assert file[|file| - |post|..] == post;
    assert file[|pre|..|file| - |post|] == defaultsMapExpr;
  }

  /** A single entry `FOO=bar` renders as the one line `"FOO": "bar",` between newlines. */
  lemma OneEntry(k: string, v: string)
    ensures DefaultsMapExpr(map[k := v]) == "\n" + Line(k, v) + "\n"
  {
    var env := map[k := v];
    assert LineSet(env) == {Line(k, v)};
    DefaultsFromAnyOrder(env, [Line(k, v)]);
  }

  /** Entries B, A and C come out in the order A, B, C. */
  lemma OrderExample(env: map<string, string>)
    requires env == map["B" := "2", "A" := "1", "C" := "3"]
    ensures DefaultsMapExpr(env) ==
      "\n" + Line("A", "1") + "\n" + Line("B", "2") + "\n" + Line("C", "3") + "\n"
  {
    ExampleLinesSorted(Line("A", "1"), Line("B", "2"), Line("C", "3"));
    ExampleLineSet(env);
    ThreeSortedLines(env, Line("A", "1"), Line("B", "2"), Line("C", "3"));
  }

  /** Three distinct lines in order are the text of the literal that holds exactly them. */
  lemma ThreeSortedLines(env: map<string, string>, la: string, lb: string, lc: string)
    requires Sorted([la, lb, lc]) && la != lb && lb != lc && la != lc
    requires LineSet(env) == {la, lb, lc}
    ensures DefaultsMapExpr(env) == "\n" + la + "\n" + lb + "\n" + lc + "\n"
  {
    ThreeLinesMultiset(env, la, lb, lc);
    DefaultsFromAnyOrder(env, [la, lb, lc]);
    JoinThree(la, lb, lc, "\n");
  }

  lemma ThreeLinesMultiset(env: map<string, string>, la: string, lb: string, lc: string)
    requires la != lb && lb != lc && la != lc
    requires LineSet(env) == {la, lb, lc}
    ensures |env| > 0
    ensures multiset([la, lb, lc]) == multiset(LineSet(env))
  {
    assert la in LineSet(env);
  }

  lemma ExampleLinesSorted(la: string, lb: string, lc: string)
    requires la == Line("A", "1") && lb == Line("B", "2") && lc == Line("C", "3")
    ensures Sorted([la, lb, lc]) && la != lb && lb != lc && la != lc
  {
    OneCharKeyLineStart("A", "1");
    OneCharKeyLineStart("B", "2");
    OneCharKeyLineStart("C", "3");
    LessCommonPrefix("\t\"", la[2..], lb[2..]);
    LessCommonPrefix("\t\"", lb[2..], lc[2..]);
    LessTransitive(la, lb, lc);
    LessAsymmetric(la, lb);
    LessAsymmetric(lb, lc);
    LessAsymmetric(la, lc);
    LessIrreflexive(la);
    LessIrreflexive(lb);
    LessIrreflexive(lc);
  }

  lemma ExampleLineSet(env: map<string, string>)
    requires env == map["B" := "2", "A" := "1", "C" := "3"]
    ensures LineSet(env) == {Line("A", "1"), Line("B", "2"), Line("C", "3")}
  {
    assert env.Keys == {"A", "B", "C"};
  }

  /** The line of a one-character key starts with a tab and a quote, then the key. */
  lemma OneCharKeyLineStart(k: string, v: string)
    requires |k| == 1 && k[0] != '"' && k[0] != '\\' && NoAsciiControl(k[0])
    ensures Line(k, v) == "\t\"" + Line(k, v)[2..]
    ensures Line(k, v)[2] == k[0]
  {
    assert EscapeBody(k) == EscapeChar(k[0]) + EscapeBody(k[1..]);
    assert k[1..] == [];
  }

  /**
    Lines are ordered by their quoted text, which is not the order of the
    keys: `A` comes before `A!`, but the line of `A!` comes before the line
    of `A`, because `!` sorts before the closing quote.
   */
  lemma LineOrderIsNotKeyOrder()
    ensures Less("A", "A!")
    ensures Less(Line("A!", ""), Line("A", ""))
  {
    var l1, l2 := Line("A!", ""), Line("A", "");
    assert EscapeBody("A!") == "A!" by {
      assert EscapeBody("!") == "!";
      assert EscapeBody("A!") == EscapeChar('A') + EscapeBody("!");
    }
    assert EscapeBody("A") == "A";
    var p := "\t\"A";
    assert l1 == p + l1[3..];
    assert l2 == p + l2[3..];
    assert l1[3] == '!' && l2[3] == '"';
    LessCommonPrefix(p, l1[3..], l2[3..]);
  }
}
