/** The user service (service/UserServiceImpl.java) over its repository,
    held as a map from id to the saved user. */
module UserServices {
  import opened Wrappers

  /** The persisted fields of a user; the tasks it owns are not held here. */
  datatype User = User(id: Option<int>, fullName: string, username: string, password: string)

  /** UserNotExistException and UserExistException. */
  datatype UserError = UserNotExist(id: int) | UserExist(username: string)

  /** No two stored users share a username. */
  ghost predicate UniqueUsernames(users: map<int, User>) {
    forall j, k | j in users && k in users && users[j].username == users[k].username :: j == k
  }

  /** Storing a user whose username no stored user has keeps usernames
      unique, whichever id it is stored under. */
  lemma InsertKeepsUsernamesUnique(users: map<int, User>, k: int, u: User)
    requires UniqueUsernames(users)
    requires forall j | j in users :: users[j].username != u.username
    ensures UniqueUsernames(users[k := u])
  {
    var updated := users[k := u];
    forall i, j | i in updated && j in updated && updated[i].username == updated[j].username
      ensures i == j
    {
      if i != k && j != k {
        assert users[i].username == users[j].username;
      }
    }
  }

  /** `updateUser` has no duplicate check: overwriting an entry with a
      user whose username another entry holds leaves two users with that
      username. */
  lemma OverwriteCanDuplicateUsername(users: map<int, User>, k: int, j: int, u: User)
    requires j in users && j != k && users[j].username == u.username
    ensures !UniqueUsernames(users[k := u])
  {
    var updated := users[k := u];
    assert updated[j].username == updated[k].username;
  }

  class UserService {
    var users: map<int, User>
    var nextId: int

    /** Every user is stored under its own id, and the sequence is past
        every stored id. */
    ghost predicate Valid()
      reads this
    {
      forall k | k in users :: users[k].id == Some(k) && k < nextId
    }

    constructor ()
      ensures Valid() && users == map[]
    {
      users := map[];
      nextId := 1;
    }

    /** `getUsers`: every stored user. */
    function GetUsers(): (all: set<User>)
      reads this
      ensures Valid() ==> forall u | u in all :: u.id.Some? && u.id.value in users && users[u.id.value] == u
      ensures forall k | k in users :: users[k] in all
    {
      set k | k in users :: users[k]
    }

    /** `getUserById`: the stored user, or UserNotExistException. */
    function GetUserById(id: int): (r: Result<User, UserError>)
      reads this
      ensures r.Success? <==> id in users
      ensures r.Success? ==> r.value in GetUsers()
      ensures Valid() && r.Success? ==> r.value.id == Some(id)
      ensures r.Failure? ==> r.error == UserNotExist(id)
    {
      if id in users then Success(users[id]) else Failure(UserNotExist(id))
    }

    /** `hasUser`: UserExistException when a stored user already has the
        username. */
    function HasUser(user: User): (r: Result<(), UserError>)
      reads this
      ensures r.Failure? <==> exists u | u in GetUsers() :: u.username == user.username
      ensures r.Failure? ==> r.error == UserExist(user.username)
    {
      if exists k | k in users :: users[k].username == user.username then Failure(UserExist(user.username))
      else Success(())
    }

    /** The repository's `save`: a user without an id is given the next id
        of the sequence; a user with one replaces what is stored under it. */
    method Save(user: User) returns (saved: User)
      requires Valid()
      modifies this
      ensures Valid()
      ensures saved.id.Some? && saved == user.(id := saved.id)
      ensures user.id.Some? ==> saved == user
      ensures user.id.None? ==> saved.id.value !in old(users)
      ensures users == old(users)[saved.id.value := saved]
    {
      if user.id.None? {
        saved := user.(id := Some(nextId));
        nextId := nextId + 1;
      } else {
        saved := user;
        if user.id.value >= nextId {
          nextId := user.id.value + 1;
        }
      }
      users := users[saved.id.value := saved];
    }

    /** `createUser`: refuses a username that is taken, leaving the store
        as it was; otherwise saves the user. */
    method CreateUser(user: User) returns (r: Result<User, UserError>)
      requires Valid()
      modifies this
      ensures Valid()
      ensures r.Failure? <==> old(HasUser(user)).Failure?
      ensures r.Failure? ==> r.error == UserExist(user.username) && users == old(users) && nextId == old(nextId)
      ensures r.Success? ==> r.value.id.Some? && r.value == user.(id := r.value.id)
      ensures r.Success? && user.id.Some? ==> r.value == user
      ensures r.Success? ==> users == old(users)[r.value.id.value := r.value]
      ensures r.Success? ==> GetUserById(r.value.id.value) == Success(r.value)
      ensures r.Success? && user.id.None? ==> r.value.id.value !in old(users)
      ensures UniqueUsernames(old(users)) ==> UniqueUsernames(users)
    {
      var check := HasUser(user);
      if check.Failure? {
        return Failure(check.error);
      }
      ghost var before := users;
      var saved := Save(user);
      if UniqueUsernames(before) {
        InsertKeepsUsernamesUnique(before, saved.id.value, saved);
      }
      r := Success(saved);
    }

    /** `updateUser`: saves the user as it is, with no duplicate check. */
    method UpdateUser(user: User) returns (saved: User)
      requires Valid()
      modifies this
      ensures Valid()
      ensures saved.id.Some? && saved == user.(id := saved.id)
      ensures user.id.Some? ==> saved == user
      ensures user.id.None? ==> saved.id.value !in old(users)
      ensures users == old(users)[saved.id.value := saved]
      ensures GetUserById(saved.id.value) == Success(saved)
    {
      saved := Save(user);
    }

    /** `deleteUserById`: removes the user; every other entry stays. */
    method DeleteUserById(id: int)
      requires Valid()
      modifies this
      ensures Valid()
      ensures users == old(users) - {id}
      ensures GetUserById(id) == Failure(UserNotExist(id))
      ensures forall k | k != id :: GetUserById(k) == old(GetUserById(k))
    {
      users := users - {id};
    }
  }
}
