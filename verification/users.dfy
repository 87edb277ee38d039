/** The credentials entity (`UserEntity`): a login owned by exactly one client or
    seller, and the security view of it, i.e. the granted authorities derived
    from the role and the four account-status flags. */
module Users {
  import opened Ids

  /** One row of the user table. Username is a unique column; password is stored
      as given; role is free text. Equality of two users is by `id` only. */
  datatype Credentials = Credentials(id: Uuid, username: string, password: string, role: string)

  /** The roles the authority table recognises. */
  const KnownRoles: set<string> := {"client", "seller", "admin"}

  /** The granted authorities of a role: a closed table of three roles, and no
      authority (rather than an error) for any other role. */
  function Authorities(role: string): (r: seq<string>)
    ensures |r| <= 1
    ensures role == "client" <==> r == ["ROLE_CLIENT"]
    ensures role == "seller" <==> r == ["ROLE_SELLER"]
    ensures role == "admin" <==> r == ["ROLE_ADMIN"]
    ensures r == [] <==> role !in KnownRoles
  {
    match role
    case "client" => ["ROLE_CLIENT"]
    case "seller" => ["ROLE_SELLER"]
    case "admin" => ["ROLE_ADMIN"]
    case _ => []
  }

  /** Distinct roles never grant the same authority. */
  lemma AuthoritiesInjective(a: string, b: string)
    requires Authorities(a) != []
    requires Authorities(a) == Authorities(b)
    ensures a == b
  {
  }

  /** The four account-status flags, all constant in the source. */
  predicate IsAccountNonExpired(u: Credentials) { true }
  predicate IsAccountNonLocked(u: Credentials) { true }
  predicate IsCredentialsNonExpired(u: Credentials) { true }
  predicate IsEnabled(u: Credentials) { true }

  /** Every account is usable: none expires, is locked, has expired credentials
      or is disabled, whatever its role. */
  lemma AccountAlwaysUsable(u: Credentials)
    ensures IsAccountNonExpired(u) && IsAccountNonLocked(u)
    ensures IsCredentialsNonExpired(u) && IsEnabled(u)
  {
  }
}
