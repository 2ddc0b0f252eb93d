/** The three tables: User (an object whose password hash set_password
    updates in place), Category and Task (rows, kept as values). */
module Models {
  import opened Wrappers
  import opened Text
  import opened Credentials

  /** Column widths: User.username String(64), User.email String(120),
      Category.name String(100), Category.color String(7), Task.title String(200). */
  const MaxUsername: nat := 64
  const MaxEmail: nat := 120
  const MaxCategoryName: nat := 100
  const MaxColor: nat := 7
  const MaxTitle: nat := 200

  /** Column defaults: Category.color, Task.priority, Task.completed. */
  const DefaultColor: string := "#007bff"
  const DefaultPriority: int := 2
  const DefaultCompleted: bool := false

  class User {
    const id: nat
    const username: string
    const email: string
    const createdAt: nat
    var passwordHash: Option<string>

    /** A user row before set_password: no hash yet. */
    constructor (id: nat, username: string, email: string, createdAt: nat)
      ensures this.id == id && this.username == username && this.email == email
      ensures this.createdAt == createdAt && passwordHash == None
    {
      this.id := id;
      this.username := username;
      this.email := email;
      this.createdAt := createdAt;
      passwordHash := None;
    }

    /** User.set_password with the salt drawn from the bytes entropy. Afterwards
        the stored value fits its column and check_password accepts exactly
        the passwords the KDF cannot tell from this one. */
    method SetPassword(kdf: Kdf, password: string, entropy: seq<byte>)
      requires |entropy| == SaltBytes
      modifies this
      ensures passwordHash == Some(NewStoredValue(kdf, password, entropy))
      ensures |passwordHash.value| <= MaxStoredLength
      ensures forall q :: CheckPassword(kdf, q)
                == Answer(kdf(q, Hex(entropy)) == kdf(password, Hex(entropy)))
    {
      var salt := Hex(entropy);
      var h := Hex(kdf(password, salt));
      passwordHash := Some(salt + [Separator] + h);
      forall q ensures CheckPassword(kdf, q)
                 == Answer(kdf(q, Hex(entropy)) == kdf(password, Hex(entropy))) {
        CheckAfterSet(kdf, password, q, entropy);
      }
    }

    /** User.check_password: false without a hash or without a separator, an
        error with more than one separator or with a hash part beyond ASCII. */
    function CheckPassword(kdf: Kdf, password: string): (r: CheckOutcome)
      reads this
      ensures passwordHash == None || passwordHash == Some([]) ==> r == Answer(false)
      ensures r == ValueError <==> passwordHash.Some? && Count(passwordHash.value, Separator) >= 2
      ensures r == TypeError <==>
                passwordHash.Some? && Count(passwordHash.value, Separator) == 1 &&
                !IsAscii(Split(passwordHash.value, Separator)[1])
      ensures r == Answer(true) ==> passwordHash.Some? && Count(passwordHash.value, Separator) == 1
    {
      CheckStored(kdf, passwordHash, password)
    }
  }

  datatype Category = Category(
    id: nat,
    name: string,
    color: string,
    createdAt: nat,
    userId: nat)

  /** Times are ticks of a monotonic clock; due dates likewise. */
  datatype Task = Task(
    id: nat,
    title: string,
    description: Option<string>,
    completed: bool,
    priority: int,
    due: Option<nat>,
    createdAt: nat,
    updatedAt: nat,
    userId: nat,
    categoryId: Option<nat>)
}
