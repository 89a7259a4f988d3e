/** The shared string constants: language names, IDE command names, and the
    user name of SSH clone URLs. */
module Consts {
  const C: string := "c"
  const CPP: string := "c++"
  const GO: string := "go"
  const JS: string := "javascript"
  const RUBY: string := "ruby"
  const RUST: string := "rust"

  const CLION: string := "clion"
  const GOLAND: string := "goland"
  const RUBYMINE: string := "rubymine"
  const RUSTROVER: string := "rustrover"
  const WEBSTORM: string := "webstorm"

  const GIT: string := "git"
}
