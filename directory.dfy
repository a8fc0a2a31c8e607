/** The registered users: lookups by code and by phone. */
module Directory {
  import opened ListOps
  import opened Entities

  /** Some registered user carries `code`. */
  ghost predicate Registered(users: seq<User>, code: string) {
    exists i :: 0 <= i < |users| && users[i].code == code
  }

  /** `users.find(u => u.code === code)`. */
  function FindUser(users: seq<User>, code: string): (r: Option<User>)
    ensures r.None? <==> !Registered(users, code)
    ensures r.Some? ==> exists i :: 0 <= i < |users| && users[i] == r.value && r.value.code == code &&
                                    forall j :: 0 <= j < i ==> users[j].code != code
  {
    Find(users, (u: User) => u.code == code)
  }

  /** `users.find(user => user.phone === phone)`. */
  function FindUserByPhone(users: seq<User>, phone: string): (r: Option<User>)
    ensures r.None? <==> forall i :: 0 <= i < |users| ==> users[i].phone != phone
    ensures r.Some? ==> r.value in users && r.value.phone == phone
  {
    Find(users, (u: User) => u.phone == phone)
  }

  /** Users are only ever appended, so a code that resolves keeps resolving,
      and to the same user. */
  lemma FindUserStable(users: seq<User>, u: User, code: string)
    requires Registered(users, code)
    ensures FindUser(users + [u], code) == FindUser(users, code)
  {
    FindIndexAppend(users, [u], (x: User) => x.code == code);
  }
}
