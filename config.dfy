/** The generator's options: the `Config` struct of the program. */
module Configuration {

  /**
    `pkg` is the package name put into the generated file; `output` the file to
    write, where "" means standard output; `ignore` the white-space separated
    names not to capture; `dev` asks for a file that captures nothing.
   */
  datatype Config = Config(pkg: string, output: string, ignore: string, dev: bool)

  /** `NewDefaultConfig`: package `env`, standard output, nothing extra ignored, release mode. */
  function NewDefaultConfig(): (c: Config)
    ensures c.pkg == "env"
    ensures c.output == ""
    ensures c.ignore == ""
    ensures !c.dev
  {
    Config("env", "", "", false)
  }
}
