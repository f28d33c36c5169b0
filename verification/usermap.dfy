/** The alias-mapper capability: whether a name is an alias in a domain, and the
    canonical username it stands for. Both operations are supplied by the caller;
    `isAlias` cannot fail, `resolve` can. */
module UserMap {
  import opened AuthTypes

  datatype UserMapper = UserMapper(
    isAlias: (string, string) -> bool,              // (name, domain)
    resolve: (string, string) -> Result<string>)    // (alias, domain) -> canonical username
}
