/** Package ecosystems and the key every lookup is made under. */
module Ecosystems {
  datatype Ecosystem = Crates | Npm | Pypi | Nuget | Git | VscodeExtension
  datatype Key = Key(eco: Ecosystem, name: string, version: string)
}
