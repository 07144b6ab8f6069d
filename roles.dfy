/** The closed set of roles a user can hold, and their wire strings. */
module Roles {
  import opened Wrappers
  import Io

  datatype Role = SuperAdmin | Admin | User

  /** The error `from_str` reports for an unknown role string. */
  const INVALID_ROLE: Io.Error := Io.Error(Io.InvalidData, "Invalid Role")

  /** `Role::to_str`: the canonical wire string, always `ROLE_` followed by the
      variant's name. */
  function ToStr(r: Role): (s: string)
    ensures |s| > 5 && s[..5] == "ROLE_"
  {
    match r
    case SuperAdmin => "ROLE_SUPER_ADMIN"
    case Admin => "ROLE_ADMIN"
    case User => "ROLE_USER"
  }

  /** `Display::fmt` (and so `to_string`), written with its own literals in the
      source; it agrees with `to_str` on every role. */
  function Display(r: Role): (s: string)
    ensures s == ToStr(r)
  {
    match r
    case SuperAdmin => "ROLE_SUPER_ADMIN"
    case Admin => "ROLE_ADMIN"
    case User => "ROLE_USER"
  }

  /** `FromStr::from_str`: exact match against the three wire strings, with no
      trimming and no case folding; anything else is `InvalidData`. */
  function FromStr(s: string): (r: Result<Role, Io.Error>)
    ensures r.Ok? ==> ToStr(r.value) == s
    ensures r.Err? ==> r.error == INVALID_ROLE && forall role :: ToStr(role) != s
  {
    match s
    case "ROLE_SUPER_ADMIN" => Ok(SuperAdmin)
    case "ROLE_ADMIN" => Ok(Admin)
    case "ROLE_USER" => Ok(User)
    case _ => Err(INVALID_ROLE)
  }

  /** Parsing the wire string of a role gives that role back. */
  lemma FromStrToStr(r: Role)
    ensures FromStr(ToStr(r)) == Ok(r)
  {
  }

  /** `from_str` accepts exactly the three wire strings. */
  lemma FromStrAcceptsExactlyWireStrings(s: string)
    ensures FromStr(s).Ok? <==> exists r :: ToStr(r) == s
  {
  }

  /** Distinct roles have distinct wire strings. */
  lemma ToStrInjective(a: Role, b: Role)
    requires ToStr(a) == ToStr(b)
    ensures a == b
  {
  }

  /** The concrete strings the tests in `tests/specs/role.rs` pin down,
      including a rejected string and near misses that trimming or case
      folding would have accepted. */
  lemma WireStrings()
    ensures ToStr(SuperAdmin) == "ROLE_SUPER_ADMIN"
    ensures ToStr(Admin) == "ROLE_ADMIN"
    ensures ToStr(User) == "ROLE_USER"
    ensures FromStr("INVALID_ROLE") == Err(INVALID_ROLE)
    ensures FromStr(" ROLE_USER").Err? && FromStr("role_user").Err?
  {
  }
}
