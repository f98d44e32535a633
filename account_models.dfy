/** The `User` model of the accounts application and its table. */
module AccountModels {

  import opened Common

  /** The `role` field: one of the two user roles. */
  datatype Role = Buyer | Seller

  /**
   * A user row loaded into memory. `deposit` is a plain signed integer
   * column (default 0): that it never goes negative is proved of the
   * operations, not given by its type.
   */
  class User {
    const pk: nat
    var username: string
    const role: Role
    var deposit: int

    constructor (pk: nat, username: string, role: Role)
      ensures this.pk == pk && this.username == username && this.role == role
      ensures deposit == 0
    {
      this.pk := pk;
      this.username := username;
      this.role := role;
      deposit := 0;
    }
  }

  /** A read-only snapshot of a user, as the authentication lookup sees it. */
  datatype Account = Account(pk: nat, username: string, role: Role, isActive: bool)

  /** A username directory is consistent when every entry is filed under its own username. */
  predicate DirectoryConsistent(users: map<string, Account>) {
    forall name :: name in users ==> users[name].username == name
  }

  /**
   * The user table, reduced to what a username update touches: the
   * username held by each primary key. Usernames are unique.
   */
  class UserTable {
    var usernames: map<nat, string>

    predicate Valid()
      reads this
    {
      forall p, q :: p in usernames && q in usernames && p != q ==> usernames[p] != usernames[q]
    }

    /** `User.objects.get(username=name)` finds a row. */
    predicate Holds(name: string)
      reads this
    {
      exists p :: p in usernames && usernames[p] == name
    }

    /** The username is held by a row other than `pk`. */
    predicate HeldByOther(pk: nat, name: string)
      reads this
    {
      exists other :: other in usernames && other != pk && usernames[other] == name
    }

    /** A table loaded from rows whose usernames are already unique. */
    constructor (usernames: map<nat, string>)
      requires forall p, q :: p in usernames && q in usernames && p != q ==> usernames[p] != usernames[q]
      ensures this.usernames == usernames
      ensures Valid()
    {
      this.usernames := usernames;
    }
  }
}
