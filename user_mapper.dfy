/**
 * The response mapper: what a client sees of a user. The response type has
 * no field for the password hash or the access token, so neither can leak.
 */
module Mapper {
  import opened Wrappers
  import opened UserEntity

  datatype UserResponseDto = UserResponseDto(
    id: string,
    name: string,
    email: string,
    role: Role,
    createdAt: nat,
    updatedAt: nat)

  /** `toResponseDto`: a field copy of the public fields. */
  function ToResponseDto(u: User): UserResponseDto {
    UserResponseDto(u.id, u.name, u.email, u.role, u.createdAt, u.updatedAt)
  }

  /** Two users agree on everything a client may see. */
  predicate SamePublicFields(u: User, v: User) {
    u.id == v.id && u.name == v.name && u.email == v.email && u.role == v.role
    && u.createdAt == v.createdAt && u.updatedAt == v.updatedAt
  }

  /** The response depends on the public fields only: it does not change with the password or the token. */
  lemma ResponseHidesSecrets(u: User, password: string, token: Option<string>)
    ensures ToResponseDto(u.(password := password, accessToken := token)) == ToResponseDto(u)
  {
  }

  /** Two responses are equal exactly when the users agree on their public fields. */
  lemma ResponseEqualIff(u: User, v: User)
    ensures ToResponseDto(u) == ToResponseDto(v) <==> SamePublicFields(u, v)
  {
  }

  /** Every public field is copied unchanged: the response reads back as the user it came from. */
  lemma ResponseRestoresUser(u: User)
    ensures var r := ToResponseDto(u);
            User(r.id, r.name, r.email, u.password, r.role, u.accessToken, r.createdAt, r.updatedAt) == u
  {
  }

  /** `toResponseDtoArray`: the mapper applied to each user, in order. */
  function ToResponseDtoArray(users: seq<User>): (r: seq<UserResponseDto>)
    ensures |r| == |users|
    ensures forall i | 0 <= i < |users| :: r[i] == ToResponseDto(users[i])
  {
    if |users| == 0 then [] else [ToResponseDto(users[0])] + ToResponseDtoArray(users[1..])
  }

  /** Mapping a concatenation maps each part: the order of the input is the order of the output. */
  lemma {:induction false} ToResponseDtoArrayAppend(a: seq<User>, b: seq<User>)
    ensures ToResponseDtoArray(a + b) == ToResponseDtoArray(a) + ToResponseDtoArray(b)
  {
    var l := ToResponseDtoArray(a + b);
    var r := ToResponseDtoArray(a) + ToResponseDtoArray(b);
    assert |l| == |r|;
    forall i | 0 <= i < |l| ensures l[i] == r[i] {
      if i < |a| {
        assert (a + b)[i] == a[i];
      } else {
        assert (a + b)[i] == b[i - |a|];
      }
    }
  }
}
