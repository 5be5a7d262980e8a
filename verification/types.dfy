/** The SQL value types that the modelled code distinguishes. The four
    integer kinds are the ones an integer index key can store; every other
    kind of the engine's type enumeration is folded into `Other`. */
module Types {

  datatype TypeId =
    | Invalid
    | TinyInt
    | SmallInt
    | Integer
    | BigInt
    | Other(code: nat)
}
