/** Packages of the workspace and the registry, by name. */
module Packages {
  datatype Package = Package(name: string)
}
