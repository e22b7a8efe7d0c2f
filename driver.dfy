/**
  `Transcribe`: capture the environment, then write the release file, or the
  dev file when `-dev` is set. The file's text is returned instead of being
  written to standard output or to the `-o` file.
 */
module Driver {
  import opened Wrappers
  import opened Configuration
  import opened EnvCapture
  import opened Emitter

  /** The text `Transcribe` writes for options `c` in a process whose environment is `environ`. */
  ghost function Generated(c: Config, environ: seq<string>): string
  {
    if c.dev then ReleaseFile(c.pkg, map[])
    else ReleaseFile(c.pkg, Snapshot(environ, IgnoreSet(c.ignore)))
  }

  /** `Transcribe(c)`, without its output plumbing. */
  method Transcribe(c: Config, environ: seq<string>) returns (out: string)
    ensures out == Generated(c, environ)
  {
    var env := CaptureEnvironment(c, environ);
    if c.dev {
      out := WriteDev(c);
    } else {
      out := WriteRelease(c, env);
    }
  }

  /** In dev mode the file is the release file of an empty environment. */
  lemma DevIsEmptyRelease(c: Config, environ: seq<string>)
    requires c.dev
    ensures Generated(c, environ) == Generated(c.(dev := false), [])
  {
  }

  /**
    The defaults the release file carries are read back as the captured
    map: every non-ignored name of the environment with its value, and no
    ignored name.
   */
  lemma ReleaseDefaults(c: Config, environ: seq<string>)
    ensures var env := Snapshot(environ, IgnoreSet(c.ignore));
      && ParseDefaults(DefaultsMapExpr(env)) == Some(env)
      && env.Keys == Names(environ) - IgnoreSet(c.ignore)
      && forall k :: k in env ==> env[k] == GetenvFrom(environ, k)
  {
    var env := Snapshot(environ, IgnoreSet(c.ignore));
    DefaultsRoundTrip(env);
  }

  /**
    The whole file reads back: its `defaults` literal is found between the
    template's fixed parts and reads as the captured map, or as the empty
    map in dev mode.
   */
  lemma GeneratedReadsBack(c: Config, environ: seq<string>)
    ensures var env := if c.dev then map[] else Snapshot(environ, IgnoreSet(c.ignore));
      && TemplateBody(c.pkg, Generated(c, environ)) == Some(DefaultsMapExpr(env))
      && ParseDefaults(DefaultsMapExpr(env)) == Some(env)
  {
    var env := if c.dev then map[] else Snapshot(environ, IgnoreSet(c.ignore));
    TemplateRoundTrip(c.pkg, DefaultsMapExpr(env));
    DefaultsRoundTrip(env);
  }
}
