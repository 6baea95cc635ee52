/** The user registry (`UserSystem`, NavigateX.cpp:37-74): users keyed by
    their id in a hash map. */
module UserSystem {
  import opened Common

  datatype User = User(name: string, id: string)

  /** The `unordered_map<string, User>`; only its key-to-value association
      matters, not its iteration order. */
  type Users = map<string, User>

  /** `findUser` (NavigateX.cpp:59-62): the stored user, or the null pointer. */
  function FindUser(us: Users, id: string): (r: Option<User>)
    ensures r.Some? <==> id in us
    ensures r.Some? ==> r.value == us[id]
  {
    if id in us then Some(us[id]) else None
  }

  /** `addUser` (NavigateX.cpp:51-57): store a new user under `id`; an id
      already in use is refused and the existing user is kept. */
  function AddUser(us: Users, id: string, name: string): (res: (Users, bool))
    ensures res.1 <==> id !in us
    ensures |res.0| == if res.1 then |us| + 1 else |us|
  {
    if id in us then (us, false) else (us[id := User(name, id)], true)
  }

  /** After `addUser`, `findUser(id)` yields the new user when the id was
      free and the old one otherwise; every other id answers as before. */
  lemma AddUserFind(us: Users, id: string, name: string, other: string)
    ensures FindUser(AddUser(us, id, name).0, id) ==
      if id in us then FindUser(us, id) else Some(User(name, id))
    ensures other != id ==> FindUser(AddUser(us, id, name).0, other) == FindUser(us, other)
  {
  }

  /** `removeUser` (NavigateX.cpp:64-70): erase the user; `false` when the id
      is unknown. */
  function RemoveUser(us: Users, id: string): (res: (Users, bool))
    ensures res.1 <==> id in us
    ensures |res.0| == if res.1 then |us| - 1 else |us|
  {
    if id !in us then (us, false) else (us - {id}, true)
  }

  /** After `removeUser`, the id is unknown and every other id answers as
      before; adding and then removing a fresh id restores the registry. */
  lemma RemoveUserFind(us: Users, id: string, other: string, name: string)
    ensures FindUser(RemoveUser(us, id).0, id).None?
    ensures other != id ==> FindUser(RemoveUser(us, id).0, other) == FindUser(us, other)
    ensures id !in us ==> RemoveUser(AddUser(us, id, name).0, id).0 == us
  {
  }
}
