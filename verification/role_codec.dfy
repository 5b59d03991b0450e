/** The column transformer of `User.role`: the entity holds the strings
    'admin' / 'user', the `users.role` column holds an int. */
module RoleCodec {
  import opened Common

  const ADMIN: string := "admin"
  const USER: string := "user"

  predicate IsRole(role: string) {
    role == ADMIN || role == USER
  }

  /** The `to` direction, run when a row is saved; any other string throws
      `Error('Invalid role')`, which fails the save with a server error. */
  function EncodeRole(role: string): (r: Result<int>)
    ensures r.Ok? <==> IsRole(role)
    ensures r.Ok? ==> (r.value == 1 <==> role == ADMIN)
    ensures r.Ok? ==> (r.value == 0 <==> role == USER)
    ensures r.Err? ==> r.error == InternalServerError
  {
    if role == ADMIN then Ok(1)
    else if role == USER then Ok(0)
    else Err(InternalServerError)
  }

  /** The `from` direction, run when a row is loaded: 1 reads as 'admin',
      every other integer as 'user'. */
  function DecodeRole(n: int): (r: string)
    ensures IsRole(r)
    ensures r == ADMIN <==> n == 1
  {
    if n == 1 then ADMIN else USER
  }

  /** Saving then loading a valid role gives it back. */
  lemma DecodeEncode(role: string)
    requires IsRole(role)
    ensures EncodeRole(role).Ok?
    ensures DecodeRole(EncodeRole(role).value) == role
  {
  }

  /** Loading then saving any column value normalises it to 0 or 1: only 1
      survives, every other value collapses to 0. */
  lemma EncodeDecode(n: int)
    ensures EncodeRole(DecodeRole(n)) == Ok(if n == 1 then 1 else 0)
  {
  }

  /** Decoding is not injective: two different column values read as 'user'. */
  lemma DecodeNotInjective()
    ensures DecodeRole(0) == DecodeRole(2) == USER
  {
  }
}
