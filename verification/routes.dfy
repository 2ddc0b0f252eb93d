/** The state-changing routes of app/routes.py over an in-memory store of
    the three tables. The logged-in user of each request is the parameter
    actor; a route's answer (redirect, flash, JSON or HTML) is reduced to a
    Response value. */
module Routes {
  import opened Wrappers
  import opened Text
  import opened Credentials
  import opened Models
  import opened Forms
  import opened Seqs
  import opened Queries

  /** What a route answers, without the page around it. */
  datatype Response =
    | Registered(userId: nat)
    | Created(id: nat)
    | Updated
    | Toggled(completed: bool)
    | Deleted
    | Rejected(errors: seq<FormError>)
    | BadDueDate
    | NotFound
    | Forbidden

  /** datetime.strptime(text, '%Y-%m-%dT%H:%M'): a tick, or None where it
      raises ValueError. */
  type DateParser = string -> Option<nat>

  /** The due date the form asks for: Some(None) when the field is empty,
      Some(Some(d)) when it parses, None when it does not. */
  function DueFromText(text: string, parse: DateParser): Option<Option<nat>>
  {
    if text == [] then Some(None)
    else match parse(text)
      case None => None
      case Some(d) => Some(Some(d))
  }

  /** The stored description: stripped, and no value at all when the field
      is empty. */
  function StoredDescription(d: string): (r: Option<string>)
    ensures r.None? <==> d == []
    ensures r.Some? ==> r.value == Strip(d) && |r.value| <= |d|
  {
    if d == [] then None else Some(Strip(d))
  }

  /** The stored category: choice 0 is "no category". */
  function ChosenCategory(c: int): (r: Option<nat>)
    requires c >= 0
    ensures r.None? <==> c == NoCategoryChoice
    ensures r.Some? ==> r.value == c
  {
    if c == NoCategoryChoice then None else Some(c as nat)
  }

  /** The ids of owner's categories: the choices the task forms offer
      besides 0. */
  function OwnCategoryIds(categories: seq<Category>, owner: nat): set<int>
  {
    set c | c in categories && c.userId == owner :: c.id as int
  }

  /** The row create_task adds; the columns the route does not set take
      their defaults. */
  function NewTaskRow(id: nat, form: TaskInput, due: Option<nat>, now: nat, owner: nat): (t: Task)
    requires form.categoryChoice >= 0
    ensures t.id == id && t.userId == owner && t.due == due
    ensures t.title == Strip(form.title) && t.description == StoredDescription(form.description)
    ensures t.completed == DefaultCompleted && t.priority == form.priority
    ensures t.categoryId == ChosenCategory(form.categoryChoice)
    ensures t.createdAt == now && t.updatedAt == now
  {
    Task(id, Strip(form.title), StoredDescription(form.description), DefaultCompleted,
         form.priority, due, now, now, owner, ChosenCategory(form.categoryChoice))
  }

  /** The row after edit_task: five columns from the form and a new
      updated_at; id, owner, completion and creation time are kept. */
  function EditedRow(t: Task, form: TaskInput, due: Option<nat>, now: nat): (r: Task)
    requires form.categoryChoice >= 0
    ensures r.id == t.id && r.userId == t.userId && r.completed == t.completed
    ensures r.createdAt == t.createdAt && r.updatedAt == now
    ensures r.title == Strip(form.title) && r.description == StoredDescription(form.description)
    ensures r.priority == form.priority && r.due == due
    ensures r.categoryId == ChosenCategory(form.categoryChoice)
  {
    t.(title := Strip(form.title), description := StoredDescription(form.description),
       priority := form.priority, due := due,
       categoryId := ChosenCategory(form.categoryChoice), updatedAt := now)
  }

  /** A row after the bulk update of delete_category: owner's tasks in
      category cid lose it (and get a new updated_at); the rest stay. */
  function ClearedRow(t: Task, cid: nat, owner: nat, now: nat): Task
  {
    if t.categoryId == Some(cid) && t.userId == owner
    then t.(categoryId := None, updatedAt := now)
    else t
  }

  /** The categories register seeds for every new user, in order. */
  const DefaultCategories: seq<(string, string)> :=
    [("Работа", "#007bff"), ("Личное", "#28a745"), ("Учеба", "#ffc107")]

  /** The rows of the default categories for owner, numbered from firstId. */
  function DefaultCategoryRows(firstId: nat, owner: nat, now: nat): (r: seq<Category>)
    ensures |r| == |DefaultCategories| == 3
    ensures forall k :: 0 <= k < |r| ==>
              r[k].userId == owner && r[k].id == firstId + k && r[k].createdAt == now &&
              r[k].name == DefaultCategories[k].0 && r[k].color == DefaultCategories[k].1
  {
    seq(|DefaultCategories|, k requires 0 <= k < |DefaultCategories| =>
      Category(firstId + k, DefaultCategories[k].0, DefaultCategories[k].1, now, owner))
  }

  /** Every default category has a non-blank name and a colour that fit
      their columns. */
  lemma DefaultCategoriesFit(k: nat)
    requires k < |DefaultCategories|
    ensures !AllSpace(DefaultCategories[k].0) && |DefaultCategories[k].0| <= MaxCategoryName
    ensures |DefaultCategories[k].1| <= MaxColor
  {
    assert !IsSpace(DefaultCategories[k].0[0]);
  }

  /** The position of the task with this id (query.get_or_404). */
  function FindTask(tasks: seq<Task>, id: nat): (r: Option<nat>)
    ensures r.Some? ==> r.value < |tasks| && tasks[r.value].id == id
    ensures r.None? ==> forall i :: 0 <= i < |tasks| ==> tasks[i].id != id
  {
    Find(tasks, (t: Task) => t.id == id)
  }

  /** The position of the category with this id (query.get_or_404). */
  function FindCategory(categories: seq<Category>, id: nat): (r: Option<nat>)
    ensures r.Some? ==> r.value < |categories| && categories[r.value].id == id
    ensures r.None? ==> forall i :: 0 <= i < |categories| ==> categories[i].id != id
  {
    Find(categories, (c: Category) => c.id == id)
  }

  /** The seq with position i left out. */
  function Without<T>(s: seq<T>, i: nat): (r: seq<T>)
    requires i < |s|
    ensures |r| == |s| - 1
    ensures forall k :: 0 <= k < i ==> r[k] == s[k]
    ensures forall k :: i <= k < |r| ==> r[k] == s[k + 1]
  {
    s[..i] + s[i + 1..]
  }

  /** The key SQLite gives the next user row: one more than the greatest
      key in the table, 1 for an empty table. */
  function NextUserId(users: seq<User>): (n: nat)
    ensures 1 <= n && forall i :: 0 <= i < |users| ==> users[i].id < n
    ensures users == [] ==> n == 1
    ensures users != [] ==> exists i :: 0 <= i < |users| && users[i].id + 1 == n
  {
    MaxKey(users, (u: User) => u.id) + 1
  }

  /** The key SQLite gives the next category row. */
  function NextCategoryId(categories: seq<Category>): (n: nat)
    ensures 1 <= n && forall i :: 0 <= i < |categories| ==> categories[i].id < n
    ensures categories == [] ==> n == 1
    ensures categories != [] ==> exists i :: 0 <= i < |categories| && categories[i].id + 1 == n
  {
    MaxKey(categories, (c: Category) => c.id) + 1
  }

  /** The key SQLite gives the next task row. */
  function NextTaskId(tasks: seq<Task>): (n: nat)
    ensures 1 <= n && forall i :: 0 <= i < |tasks| ==> tasks[i].id < n
    ensures tasks == [] ==> n == 1
    ensures tasks != [] ==> exists i :: 0 <= i < |tasks| && tasks[i].id + 1 == n
  {
    MaxKey(tasks, (t: Task) => t.id) + 1
  }

  /** Keys are not reserved: once the row holding the greatest key is
      deleted, the next row created gets a key no greater than it, and
      that very key when the keys below it have no gap. */
  lemma DeletedNewestKeyReused(tasks: seq<Task>, i: nat)
    requires i < |tasks| && 1 <= tasks[i].id && tasks[i].id + 1 == NextTaskId(tasks)
    requires forall a, b :: 0 <= a < b < |tasks| ==> tasks[a].id != tasks[b].id
    ensures NextTaskId(Without(tasks, i)) <= tasks[i].id
    ensures forall t :: t in Without(tasks, i) ==> t.id != tasks[i].id
    ensures (tasks[i].id == 1 || exists t :: t in Without(tasks, i) && t.id + 1 == tasks[i].id) ==>
              NextTaskId(Without(tasks, i)) == tasks[i].id
  {
    var r := Without(tasks, i);
    forall a | 0 <= a < |r| ensures r[a].id < tasks[i].id {
      var a' := if a < i then a else a + 1;
      assert r[a] == tasks[a'];
    }
  }

  /** A stored user fits its columns and holds a hash set_password wrote. */
  ghost predicate UserFits(u: User)
    reads u
  {
    1 <= u.id && |u.username| <= MaxUsername &&
    u.passwordHash.Some? && IsHexStored(u.passwordHash.value)
  }

  /** A stored category fits its columns; the name is not blank. */
  ghost predicate CategoryFits(c: Category)
  {
    1 <= c.id && !AllSpace(c.name) && |c.name| <= MaxCategoryName && |c.color| <= MaxColor
  }

  /** A stored task fits its columns, holds a priority the form offers, and
      was not updated before it was created. */
  ghost predicate TaskFits(t: Task)
  {
    1 <= t.id && !AllSpace(t.title) && |t.title| <= MaxTitle && t.priority in PriorityChoices &&
    t.createdAt <= t.updatedAt
  }

  /** Adding categories keeps every category choice a user had. */
  lemma OwnCategoryIdsGrow(a: seq<Category>, b: seq<Category>, owner: nat)
    ensures OwnCategoryIds(a, owner) <= OwnCategoryIds(a + b, owner)
  {
    forall x | x in OwnCategoryIds(a, owner) ensures x in OwnCategoryIds(a + b, owner) {
      var c :| c in a && c.userId == owner && x == c.id as int;
      assert c in a + b;
    }
  }

  /** A category row fits and names an existing user. */
  ghost predicate CategoryRowOk(c: Category, userIds: set<nat>)
  {
    CategoryFits(c) && c.userId in userIds
  }

  /** The category table: every row consistent, keys unique. */
  ghost predicate CategoriesOk(categories: seq<Category>, userIds: set<nat>)
  {
    (forall i :: 0 <= i < |categories| ==> CategoryRowOk(categories[i], userIds)) &&
    (forall i, j :: 0 <= i < j < |categories| ==> categories[i].id != categories[j].id)
  }

  /** A task row names an existing user, a time not after the clock, and,
      when it has a category, one of its own user's. */
  ghost predicate TaskRowOk(t: Task, categories: seq<Category>, userIds: set<nat>, clock: nat)
  {
    TaskFits(t) && t.updatedAt <= clock && t.userId in userIds &&
    (t.categoryId.Some? ==> t.categoryId.value as int in OwnCategoryIds(categories, t.userId))
  }

  /** The task table: every row consistent, keys unique. */
  ghost predicate TasksOk(tasks: seq<Task>, categories: seq<Category>, userIds: set<nat>, clock: nat)
  {
    (forall i :: 0 <= i < |tasks| ==> TaskRowOk(tasks[i], categories, userIds, clock)) &&
    (forall i, j :: 0 <= i < j < |tasks| ==> tasks[i].id != tasks[j].id)
  }

  /** More categories, more users or a later clock keep the task table
      consistent. */
  lemma TasksOkWeaken(tasks: seq<Task>, cs: seq<Category>, cs': seq<Category>, us: set<nat>, us': set<nat>,
                      k: nat, k': nat)
    requires TasksOk(tasks, cs, us, k)
    requires forall o: nat :: OwnCategoryIds(cs, o) <= OwnCategoryIds(cs', o)
    requires us <= us' && k <= k'
    ensures TasksOk(tasks, cs', us', k')
  {
    forall i | 0 <= i < |tasks| ensures TaskRowOk(tasks[i], cs', us', k') {
      assert TaskRowOk(tasks[i], cs, us, k);
      assert OwnCategoryIds(cs, tasks[i].userId) <= OwnCategoryIds(cs', tasks[i].userId);
    }
  }

  /** Appending a consistent row under a key greater than every key in the
      table keeps the table consistent. */
  lemma TasksOkAppend(tasks: seq<Task>, t: Task, cs: seq<Category>, us: set<nat>, k: nat)
    requires TasksOk(tasks, cs, us, k) && TaskRowOk(t, cs, us, k)
    requires forall i :: 0 <= i < |tasks| ==> tasks[i].id < t.id
    ensures TasksOk(tasks + [t], cs, us, k)
  {
    var r := tasks + [t];
    forall i | 0 <= i < |r| ensures TaskRowOk(r[i], cs, us, k) {
      if i < |tasks| {
        assert r[i] == tasks[i];
      }
    }
    forall i, j | 0 <= i < j < |r| ensures r[i].id != r[j].id {
      assert r[i] == tasks[i];
    }
  }

  /** Appending a consistent row under the next key and committing at a
      later time keeps the table consistent. */
  lemma TasksOkAppendLater(tasks: seq<Task>, t: Task, cs: seq<Category>, us: set<nat>, k: nat, now: nat)
    requires TasksOk(tasks, cs, us, k) && k <= now && TaskRowOk(t, cs, us, now) && t.id == NextTaskId(tasks)
    ensures TasksOk(tasks + [t], cs, us, now)
  {
    TasksOkWeaken(tasks, cs, cs, us, us, k, now);
    TasksOkAppend(tasks, t, cs, us, now);
  }

  /** Replacing a row by a consistent one with the same key keeps the table
      consistent. */
  lemma TasksOkUpdate(tasks: seq<Task>, i: nat, t: Task, cs: seq<Category>, us: set<nat>, k: nat)
    requires TasksOk(tasks, cs, us, k) && i < |tasks| && t.id == tasks[i].id
    requires TaskRowOk(t, cs, us, k)
    ensures TasksOk(tasks[i := t], cs, us, k)
  {
    var r := tasks[i := t];
    forall a, b | 0 <= a < b < |r| ensures r[a].id != r[b].id {
      assert r[a].id == tasks[a].id && r[b].id == tasks[b].id;
    }
  }

  /** Removing a row keeps the table consistent. */
  lemma TasksOkRemove(tasks: seq<Task>, i: nat, cs: seq<Category>, us: set<nat>, k: nat)
    requires TasksOk(tasks, cs, us, k) && i < |tasks|
    ensures TasksOk(Without(tasks, i), cs, us, k)
  {
    var r := Without(tasks, i);
    forall a | 0 <= a < |r| ensures TaskRowOk(r[a], cs, us, k) {
      var a' := if a < i then a else a + 1;
      assert r[a] == tasks[a'];
    }
    forall a, b | 0 <= a < b < |r| ensures r[a].id != r[b].id {
      var a', b' := if a < i then a else a + 1, if b < i then b else b + 1;
      assert r[a] == tasks[a'] && r[b] == tasks[b'];
    }
  }

  /** Keys are unique, so removing a row removes its key. */
  lemma RemovedKeyGone(tasks: seq<Task>, i: nat, cs: seq<Category>, us: set<nat>, k: nat)
    requires TasksOk(tasks, cs, us, k) && i < |tasks|
    ensures forall t :: t in Without(tasks, i) ==> t.id != tasks[i].id
  {
    var r := Without(tasks, i);
    forall t | t in r ensures t.id != tasks[i].id {
      var a :| 0 <= a < |r| && r[a] == t;
      var a' := if a < i then a else a + 1;
      assert t == tasks[a'];
    }
  }

  /** Appending a consistent category under a key greater than every key
      in the table keeps the table consistent. */
  lemma CategoriesOkAppend(cs: seq<Category>, c: Category, us: set<nat>)
    requires CategoriesOk(cs, us) && CategoryRowOk(c, us)
    requires forall i :: 0 <= i < |cs| ==> cs[i].id < c.id
    ensures CategoriesOk(cs + [c], us)
  {
    var r := cs + [c];
    forall i | 0 <= i < |r| ensures CategoryRowOk(r[i], us) {
      if i < |cs| {
        assert r[i] == cs[i];
      }
    }
    forall i, j | 0 <= i < j < |r| ensures r[i].id != r[j].id {
      assert r[i] == cs[i];
    }
  }

  /** Appending consistent rows under consecutive keys after the greatest
      key in the table keeps the table consistent. */
  lemma CategoriesOkAppendAll(cs: seq<Category>, rows: seq<Category>, us: set<nat>)
    requires CategoriesOk(cs, us)
    requires forall k :: 0 <= k < |rows| ==> rows[k].id == NextCategoryId(cs) + k && CategoryRowOk(rows[k], us)
    ensures CategoriesOk(cs + rows, us)
  {
    var r := cs + rows;
    forall i | 0 <= i < |r| ensures CategoryRowOk(r[i], us) {
      if i < |cs| {
        assert r[i] == cs[i];
      } else {
        assert r[i] == rows[i - |cs|];
      }
    }
    forall i, j | 0 <= i < j < |r| ensures r[i].id != r[j].id {
      if j < |cs| {
        assert r[i] == cs[i] && r[j] == cs[j];
      } else if i < |cs| {
        assert r[i] == cs[i] && r[j] == rows[j - |cs|];
      } else {
        assert r[i] == rows[i - |cs|] && r[j] == rows[j - |cs|];
      }
    }
  }

  /** An accepted task form yields a row that fits its table: a title that
      is not blank and fits, a priority the form offers, and no category or
      one of the acting user's own. */
  lemma AcceptedTaskFormFits(form: TaskInput, cs: seq<Category>, owner: nat)
    requires TaskFormErrors(form, OwnCategoryIds(cs, owner)) == []
    ensures form.categoryChoice >= 0
    ensures Strip(form.title) != [] && |Strip(form.title)| <= MaxTitle
    ensures form.priority in PriorityChoices
    ensures ChosenCategory(form.categoryChoice).Some? ==>
              ChosenCategory(form.categoryChoice).value as int in OwnCategoryIds(cs, owner)
  {
    TaskFormAccepted(form, OwnCategoryIds(cs, owner));
    if form.categoryChoice != NoCategoryChoice {
      var c :| c in cs && c.userId == owner && form.categoryChoice == c.id as int;
    }
  }

  /** The row create_task appends fits the table. */
  lemma NewTaskRowOk(id: nat, form: TaskInput, due: Option<nat>, now: nat, owner: nat,
                     cs: seq<Category>, us: set<nat>)
    requires TaskFormErrors(form, OwnCategoryIds(cs, owner)) == [] && owner in us && 1 <= id
    ensures form.categoryChoice >= 0
    ensures TaskRowOk(NewTaskRow(id, form, due, now, owner), cs, us, now)
  {
    AcceptedTaskFormFits(form, cs, owner);
  }

  /** The row edit_task writes fits the table. */
  lemma EditedRowOk(t: Task, form: TaskInput, due: Option<nat>, now: nat,
                    cs: seq<Category>, us: set<nat>, k: nat)
    requires TaskFormErrors(form, OwnCategoryIds(cs, t.userId)) == []
    requires TaskRowOk(t, cs, us, k) && k <= now
    ensures form.categoryChoice >= 0
    ensures TaskRowOk(EditedRow(t, form, due, now), cs, us, now)
  {
    AcceptedTaskFormFits(form, cs, t.userId);
  }

  /** The task table after the bulk update of delete_category: owner's rows
      in cid lose it and are stamped now; every other row, and every other
      column, stays. */
  function ClearedRows(tasks: seq<Task>, cid: nat, owner: nat, now: nat): (r: seq<Task>)
    ensures |r| == |tasks|
    ensures forall k :: 0 <= k < |r| && r[k].userId == owner ==> r[k].categoryId != Some(cid)
    ensures forall k :: 0 <= k < |r| && !(tasks[k].userId == owner && tasks[k].categoryId == Some(cid)) ==>
              r[k] == tasks[k]
    ensures forall k :: 0 <= k < |r| ==>
              r[k] == tasks[k] || r[k] == tasks[k].(categoryId := None, updatedAt := now)
  {
    seq(|tasks|, k requires 0 <= k < |tasks| => ClearedRow(tasks[k], cid, owner, now))
  }

  /** Dropping a row keeps the category table consistent. */
  lemma CategoriesOkRemove(cs: seq<Category>, i: nat, us: set<nat>)
    requires CategoriesOk(cs, us) && i < |cs|
    ensures CategoriesOk(Without(cs, i), us)
  {
    var r := Without(cs, i);
    forall a | 0 <= a < |r| ensures CategoryRowOk(r[a], us) {
      var a' := if a < i then a else a + 1;
      assert r[a] == cs[a'];
    }
    forall a, b | 0 <= a < b < |r| ensures r[a].id != r[b].id {
      var a', b' := if a < i then a else a + 1, if b < i then b else b + 1;
      assert r[a] == cs[a'] && r[b] == cs[b'];
    }
  }

  /** In a consistent database only the category's own user's tasks refer
      to it; so after the bulk update no task refers to it, and every other
      category reference still names a remaining category of the task's user. */
  lemma ClearedRowOk(t: Task, cs: seq<Category>, i: nat, us: set<nat>, k: nat, now: nat)
    requires CategoriesOk(cs, us) && i < |cs| && TaskRowOk(t, cs, us, k) && k <= now
    ensures ClearedRow(t, cs[i].id, cs[i].userId, now).categoryId != Some(cs[i].id)
    ensures TaskRowOk(ClearedRow(t, cs[i].id, cs[i].userId, now), Without(cs, i), us, now)
  {
    var r := ClearedRow(t, cs[i].id, cs[i].userId, now);
    if r.categoryId.Some? {
      var c :| c in cs && c.userId == t.userId && r.categoryId.value as int == c.id as int;
      var j :| 0 <= j < |cs| && cs[j] == c;
      if j == i {
        assert false;
      }
      var w := Without(cs, i);
      var j' := if j < i then j else j - 1;
      assert w[j'] == c;
      assert r.categoryId.value as int in OwnCategoryIds(w, r.userId);
    }
  }

  /** delete_category keeps both tables consistent and leaves no task in the
      deleted category. */
  lemma DeleteCategoryKeepsTables(tasks: seq<Task>, cs: seq<Category>, i: nat, us: set<nat>,
                                  k: nat, now: nat)
    requires TasksOk(tasks, cs, us, k) && CategoriesOk(cs, us) && i < |cs| && k <= now
    ensures CategoriesOk(Without(cs, i), us)
    ensures TasksOk(ClearedRows(tasks, cs[i].id, cs[i].userId, now), Without(cs, i), us, now)
    ensures forall t :: t in ClearedRows(tasks, cs[i].id, cs[i].userId, now) ==> t.categoryId != Some(cs[i].id)
  {
    CategoriesOkRemove(cs, i, us);
    var r := ClearedRows(tasks, cs[i].id, cs[i].userId, now);
    forall a | 0 <= a < |r|
      ensures TaskRowOk(r[a], Without(cs, i), us, now) && r[a].categoryId != Some(cs[i].id)
    {
      assert r[a] == ClearedRow(tasks[a], cs[i].id, cs[i].userId, now);
      ClearedRowOk(tasks[a], cs, i, us, k, now);
    }
  }

  /** The categories of a user who owned none, after seeding rows all
      owned by that user, are exactly those rows. */
  lemma SeededCategoriesOwned(cs: seq<Category>, rows: seq<Category>, owner: nat)
    requires forall k :: 0 <= k < |cs| ==> cs[k].userId != owner
    requires forall k :: 0 <= k < |rows| ==> rows[k].userId == owner
    ensures OwnedCategories(cs + rows, owner) == rows
  {
    FilterSkip(cs, rows, (c: Category) => c.userId == owner);
    FilterAll(rows, (c: Category) => c.userId == owner);
  }

  /** A new user widens the users a row may name. */
  lemma CategoriesOkWeaken(cs: seq<Category>, us: set<nat>, us': set<nat>)
    requires CategoriesOk(cs, us) && us <= us'
    ensures CategoriesOk(cs, us')
  {
    forall a | 0 <= a < |cs| ensures CategoryRowOk(cs[a], us') {
      assert CategoryRowOk(cs[a], us);
    }
  }

  /** A registration the form as written accepts names a new username, of
      at most the column width, and a new e-mail, of any length. */
  lemma AcceptedRegistrationFits(form: RegistrationInput, usernames: set<string>, emails: set<string>)
    requires RegistrationErrors(form, usernames, emails) == []
    ensures form.username !in usernames && form.email !in emails
    ensures |form.username| <= MaxUsername
  {
    RegistrationAccepted(form, usernames, emails);
  }

  /** The database: three tables and the clock that stamps every commit.
      The next key of each table is a function of its rows (NextUserId,
      NextCategoryId, NextTaskId), as SQLite computes it. */
  class Store {
    var users: seq<User>
    var categories: seq<Category>
    var tasks: seq<Task>
    var clock: nat

    function UserIds(): set<nat>
      reads this`users
    {
      set u | u in users :: u.id
    }

    function Usernames(): set<string>
      reads this`users
    {
      set u | u in users :: u.username
    }

    function Emails(): set<string>
      reads this`users
    {
      set u | u in users :: u.email
    }

    /** Keys are unique; usernames and e-mails are unique; every row fits
        its columns; user_id always names a user; a task's category, when
        it has one, is a category of the task's own user; no row is
        stamped later than the clock. */
    ghost predicate Valid()
      reads this, users
    {
      UsersValid() && CategoriesValid() && TasksValid() && StampsValid()
    }

    /** No user or category was created later than the clock (tasks bound
        their stamps in TaskRowOk). */
    ghost predicate StampsValid()
      reads this, users
    {
      (forall i :: 0 <= i < |users| ==> users[i].createdAt <= clock) &&
      (forall i :: 0 <= i < |categories| ==> categories[i].createdAt <= clock)
    }

    ghost predicate UsersValid()
      reads this`users, users
    {
      (forall i :: 0 <= i < |users| ==> UserFits(users[i])) &&
      (forall i, j :: 0 <= i < j < |users| ==>
         users[i].id != users[j].id && users[i].username != users[j].username &&
         users[i].email != users[j].email)
    }

    ghost predicate CategoriesValid()
      reads this`users, this`categories
    {
      CategoriesOk(categories, UserIds())
    }

    ghost predicate TasksValid()
      reads this
    {
      TasksOk(tasks, categories, UserIds(), clock)
    }

    /** An empty database. */
    constructor ()
      ensures Valid()
      ensures users == [] && categories == [] && tasks == []
    {
      users := [];
      categories := [];
      tasks := [];
      clock := 0;
    }

    /** The tables a task route does not touch stay as they were. */
    twostate predicate UsersAndCategoriesKept()
      reads this
    {
      users == old(users) && categories == old(categories)
    }

    /** Adds a consistent task row under the next key and commits at now. */
    method AppendTask(row: Task, now: nat)
      requires Valid() && row.id == NextTaskId(tasks) && clock <= now
      requires TaskRowOk(row, categories, UserIds(), now)
      modifies this
      ensures Valid()
      ensures tasks == old(tasks) + [row] && clock == now
      ensures UsersAndCategoriesKept()
    {
      TasksOkAppendLater(tasks, row, categories, UserIds(), clock, now);
      tasks := tasks + [row];
      clock := now;
    }

    /** Overwrites task row i by a consistent row with the same key and
        commits at now. */
    method ReplaceTask(i: nat, row: Task, now: nat)
      requires Valid() && i < |tasks| && row.id == tasks[i].id && clock <= now
      requires TaskRowOk(row, categories, UserIds(), now)
      modifies this
      ensures Valid()
      ensures tasks == old(tasks)[i := row] && clock == now
      ensures UsersAndCategoriesKept()
    {
      TasksOkWeaken(tasks, categories, categories, UserIds(), UserIds(), clock, now);
      TasksOkUpdate(tasks, i, row, categories, UserIds(), now);
      tasks := tasks[i := row];
      clock := now;
    }

    /** Removes task row i and commits; no row with its key remains. */
    method RemoveTask(i: nat)
      requires Valid() && i < |tasks|
      modifies this
      ensures Valid()
      ensures tasks == Without(old(tasks), i) && (forall t :: t in tasks ==> t.id != old(tasks[i].id))
      ensures clock == old(clock) && UsersAndCategoriesKept()
    {
      TasksOkRemove(tasks, i, categories, UserIds(), clock);
      RemovedKeyGone(tasks, i, categories, UserIds(), clock);
      tasks := Without(tasks, i);
    }

    /** Adds a consistent category row under the next key and commits at now. */
    method AppendCategory(row: Category, now: nat)
      requires Valid() && row.id == NextCategoryId(categories) && clock <= now
      requires CategoryRowOk(row, UserIds()) && row.createdAt <= now
      modifies this
      ensures Valid()
      ensures categories == old(categories) + [row]
      ensures clock == now && users == old(users) && tasks == old(tasks)
    {
      forall o: nat ensures OwnCategoryIds(categories, o) <= OwnCategoryIds(categories + [row], o) {
        OwnCategoryIdsGrow(categories, [row], o);
      }
      TasksOkWeaken(tasks, categories, categories + [row], UserIds(), UserIds(), clock, now);
      CategoriesOkAppend(categories, row, UserIds());
      categories := categories + [row];
      clock := now;
    }

    /** toggle_task: a missing id is 404 and another user's task 403, both
        changing nothing; the owner's task flips completed and gets an
        updated_at later than any before. */
    method ToggleTask(actor: nat, id: nat) returns (res: Response)
      requires Valid() && actor in UserIds()
      modifies this
      ensures Valid()
      ensures old(FindTask(tasks, id)).None? ==> res == NotFound && unchanged(this)
      ensures old(FindTask(tasks, id)).Some? && old(tasks[FindTask(tasks, id).value].userId) != actor ==>
                res == Forbidden && unchanged(this)
      ensures old(FindTask(tasks, id)).Some? && old(tasks[FindTask(tasks, id).value].userId) == actor ==>
                var i := old(FindTask(tasks, id)).value;
                var t := old(tasks[i]);
                res == Toggled(!t.completed) && clock == old(clock) + 1 && t.updatedAt < clock &&
                tasks == old(tasks)[i := t.(completed := !t.completed, updatedAt := clock)] &&
                UsersAndCategoriesKept()
    {
      var found := FindTask(tasks, id);
      if found.None? {
        return NotFound;
      }
      var i := found.value;
      var t := tasks[i];
      if t.userId != actor {
        return Forbidden;
      }
      var now := clock + 1;
      assert TaskRowOk(t, categories, UserIds(), clock);
      ReplaceTask(i, t.(completed := !t.completed, updatedAt := now), now);
      res := Toggled(!t.completed);
    }

    /** delete_task: 404 and 403 change nothing; the owner's task is removed
        and every other row stays, in order. */
    method DeleteTask(actor: nat, id: nat) returns (res: Response)
      requires Valid() && actor in UserIds()
      modifies this
      ensures Valid()
      ensures old(FindTask(tasks, id)).None? ==> res == NotFound && unchanged(this)
      ensures old(FindTask(tasks, id)).Some? && old(tasks[FindTask(tasks, id).value].userId) != actor ==>
                res == Forbidden && unchanged(this)
      ensures old(FindTask(tasks, id)).Some? && old(tasks[FindTask(tasks, id).value].userId) == actor ==>
                res == Deleted && tasks == Without(old(tasks), old(FindTask(tasks, id)).value) &&
                (forall t :: t in tasks ==> t.id != id) &&
                clock == old(clock) && UsersAndCategoriesKept()
    {
      var found := FindTask(tasks, id);
      if found.None? {
        return NotFound;
      }
      var i := found.value;
      if tasks[i].userId != actor {
        return Forbidden;
      }
      RemoveTask(i);
      res := Deleted;
    }

    /** create_task: a form that fails validation, or a due date that does
        not parse, changes nothing; otherwise one task is appended with the
        next id, the stripped title, the description stripped or absent,
        no category for choice 0, completed false, and both stamps now. */
    method CreateTask(actor: nat, form: TaskInput, parse: DateParser) returns (res: Response)
      requires Valid() && actor in UserIds()
      modifies this
      ensures Valid()
      ensures var errors := TaskFormErrors(form, OwnCategoryIds(old(categories), actor));
              errors != [] ==> res == Rejected(errors) && unchanged(this)
      ensures TaskFormErrors(form, OwnCategoryIds(old(categories), actor)) == [] &&
              DueFromText(form.dueText, parse).None? ==>
                res == BadDueDate && unchanged(this)
      ensures TaskFormErrors(form, OwnCategoryIds(old(categories), actor)) == [] &&
              DueFromText(form.dueText, parse).Some? ==>
                form.categoryChoice >= 0 && res == Created(NextTaskId(old(tasks))) &&
                clock == old(clock) + 1 &&
                tasks == old(tasks) + [NewTaskRow(NextTaskId(old(tasks)), form,
                                                  DueFromText(form.dueText, parse).value, clock, actor)] &&
                UsersAndCategoriesKept()
    {
      var errors := TaskFormErrors(form, OwnCategoryIds(categories, actor));
      if errors != [] {
        return Rejected(errors);
      }
      var due := DueFromText(form.dueText, parse);
      if due.None? {
        return BadDueDate;
      }
      var now := clock + 1;
      var id := NextTaskId(tasks);
      NewTaskRowOk(id, form, due.value, now, actor, categories, UserIds());
      AppendTask(NewTaskRow(id, form, due.value, now, actor), now);
      res := Created(id);
    }

    /** edit_task: 404, then 403, then validation, then the due date, each
        failure changing nothing; otherwise the owner's task gets title,
        description, priority, due date and category from the form and a
        new updated_at, and every other row stays. */
    method EditTask(actor: nat, id: nat, form: TaskInput, parse: DateParser) returns (res: Response)
      requires Valid() && actor in UserIds()
      modifies this
      ensures Valid()
      ensures old(FindTask(tasks, id)).None? ==> res == NotFound && unchanged(this)
      ensures old(FindTask(tasks, id)).Some? && old(tasks[FindTask(tasks, id).value].userId) != actor ==>
                res == Forbidden && unchanged(this)
      ensures old(FindTask(tasks, id)).Some? && old(tasks[FindTask(tasks, id).value].userId) == actor ==>
                var errors := TaskFormErrors(form, OwnCategoryIds(old(categories), actor));
                var due := DueFromText(form.dueText, parse);
                (errors != [] ==> res == Rejected(errors) && unchanged(this)) &&
                (errors == [] && due.None? ==> res == BadDueDate && unchanged(this)) &&
                (errors == [] && due.Some? ==>
                   var i := old(FindTask(tasks, id)).value;
                   form.categoryChoice >= 0 && res == Updated && clock == old(clock) + 1 &&
                   old(tasks[i]).updatedAt < clock &&
                   tasks == old(tasks)[i := EditedRow(old(tasks[i]), form, due.value, clock)] &&
                   UsersAndCategoriesKept())
    {
      var found := FindTask(tasks, id);
      if found.None? {
        return NotFound;
      }
      var i := found.value;
      var t := tasks[i];
      if t.userId != actor {
        return Forbidden;
      }
      var errors := TaskFormErrors(form, OwnCategoryIds(categories, actor));
      if errors != [] {
        return Rejected(errors);
      }
      var due := DueFromText(form.dueText, parse);
      if due.None? {
        return BadDueDate;
      }
      var now := clock + 1;
      assert TaskRowOk(t, categories, UserIds(), clock);
      EditedRowOk(t, form, due.value, now, categories, UserIds(), clock);
      ReplaceTask(i, EditedRow(t, form, due.value, now), now);
      res := Updated;
    }

    /** create_category: a form that fails validation changes nothing;
        otherwise one category of the acting user is appended with the next
        id, the stripped name and the colour as given. */
    method CreateCategory(actor: nat, form: CategoryInput) returns (res: Response)
      requires Valid() && actor in UserIds()
      modifies this
      ensures Valid()
      ensures CategoryFormErrors(form) != [] ==> res == Rejected(CategoryFormErrors(form)) && unchanged(this)
      ensures CategoryFormErrors(form) == [] ==>
                res == Created(NextCategoryId(old(categories))) && clock == old(clock) + 1 &&
                categories == old(categories) +
                  [Category(NextCategoryId(old(categories)), Strip(form.name), form.color, clock, actor)] &&
                users == old(users) && tasks == old(tasks)
    {
      var errors := CategoryFormErrors(form);
      if errors != [] {
        return Rejected(errors);
      }
      CategoryFormAccepted(form);
      var now := clock + 1;
      var id := NextCategoryId(categories);
      AppendCategory(Category(id, Strip(form.name), form.color, now, actor), now);
      res := Created(id);
    }

    /** delete_category: 404 and 403 change nothing; for the owner, the bulk
        update takes the category off every one of the owner's tasks in it
        (refreshing their updated_at), then the category row is removed;
        every other row stays. */
    method DeleteCategory(actor: nat, id: nat) returns (res: Response)
      requires Valid() && actor in UserIds()
      modifies this
      ensures Valid()
      ensures old(FindCategory(categories, id)).None? ==> res == NotFound && unchanged(this)
      ensures old(FindCategory(categories, id)).Some? &&
              old(categories[FindCategory(categories, id).value].userId) != actor ==>
                res == Forbidden && unchanged(this)
      ensures old(FindCategory(categories, id)).Some? &&
              old(categories[FindCategory(categories, id).value].userId) == actor ==>
                res == Deleted && clock == old(clock) + 1 &&
                categories == Without(old(categories), old(FindCategory(categories, id)).value) &&
                tasks == ClearedRows(old(tasks), id, actor, clock) &&
                (forall t :: t in tasks ==> t.categoryId != Some(id)) &&
                users == old(users)
    {
      var found := FindCategory(categories, id);
      if found.None? {
        return NotFound;
      }
      var i := found.value;
      if categories[i].userId != actor {
        return Forbidden;
      }
      var now := clock + 1;
      DeleteCategoryKeepsTables(tasks, categories, i, UserIds(), clock, now);
      tasks := ClearCategory(tasks, id, actor, now);
      categories := Without(categories, i);
      clock := now;
      res := Deleted;
    }

    /** The bulk update of delete_category: every task of owner in category
        id loses its category and is stamped now; the others stay. */
    static method ClearCategory(tasks: seq<Task>, id: nat, owner: nat, now: nat) returns (rows: seq<Task>)
      ensures rows == ClearedRows(tasks, id, owner, now)
    {
      rows := tasks;
      var k := 0;
      while k < |rows|
        invariant 0 <= k <= |rows| == |tasks|
        invariant forall m :: 0 <= m < k ==> rows[m] == ClearedRow(tasks[m], id, owner, now)
        invariant forall m :: k <= m < |rows| ==> rows[m] == tasks[m]
      {
        if rows[k].categoryId == Some(id) && rows[k].userId == owner {
          rows := rows[k := rows[k].(categoryId := None, updatedAt := now)];
        }
        k := k + 1;
      }
    }


    /** User(username=..., email=...) followed by set_password. */
    static method NewUser(id: nat, username: string, email: string, now: nat,
                          kdf: Kdf, password: string, entropy: seq<byte>) returns (u: User)
      requires |entropy| == SaltBytes && 1 <= id && |username| <= MaxUsername
      ensures fresh(u) && UserFits(u)
      ensures u.id == id && u.username == username && u.email == email && u.createdAt == now
      ensures u.passwordHash == Some(NewStoredValue(kdf, password, entropy))
    {
      u := new User(id, username, email, now);
      u.SetPassword(kdf, password, entropy);
    }

    /** Adds a user row that fits, under the next key, with a username and
        an e-mail no stored user has, and commits at now. */
    method AppendUser(u: User, now: nat)
      requires Valid() && UserFits(u) && u.id == NextUserId(users) && clock <= now && u.createdAt <= now
      requires u.username !in Usernames() && u.email !in Emails()
      modifies this
      ensures Valid()
      ensures users == old(users) + [u] && clock == now
      ensures categories == old(categories) && tasks == old(tasks)
    {
      UsernameUnused(u.username);
      EmailUnused(u.email);
      ghost var oldIds := UserIds();
      ghost var before := users;
      users := users + [u];
      clock := now;
      UsersValidAppend(before, u);
      UserIdsGrow(before, u);
      TasksOkWeaken(tasks, categories, categories, oldIds, UserIds(), old(clock), now);
      CategoriesOkWeaken(categories, oldIds, UserIds());
    }

    /** The first commit of register: a new user row with the next key and
        the hash set_password writes. */
    method AddUser(kdf: Kdf, username: string, email: string, password: string, entropy: seq<byte>)
      returns (u: User)
      requires Valid() && |entropy| == SaltBytes
      requires username !in Usernames() && email !in Emails() && |username| <= MaxUsername
      modifies this
      ensures Valid() && fresh(u)
      ensures users == old(users) + [u] && clock == old(clock) + 1
      ensures u.id == NextUserId(old(users)) && u.username == username && u.email == email && u.createdAt == clock
      ensures u.passwordHash == Some(NewStoredValue(kdf, password, entropy))
      ensures categories == old(categories) && tasks == old(tasks)
    {
      var now := clock + 1;
      u := NewUser(NextUserId(users), username, email, now, kdf, password, entropy);
      AppendUser(u, now);
    }

    /** Inserts the rows added to the session and commits at now: the
        flush numbers them with consecutive keys after the greatest key in
        the table. */
    method CommitCategories(rows: seq<Category>, now: nat)
      requires Valid() && clock <= now
      requires forall k :: 0 <= k < |rows| ==>
                 rows[k].id == NextCategoryId(categories) + k && CategoryRowOk(rows[k], UserIds()) &&
                 rows[k].createdAt <= now
      modifies this
      ensures Valid()
      ensures categories == old(categories) + rows
      ensures clock == now && users == old(users) && tasks == old(tasks)
    {
      forall o: nat ensures OwnCategoryIds(categories, o) <= OwnCategoryIds(categories + rows, o) {
        OwnCategoryIdsGrow(categories, rows, o);
      }
      TasksOkWeaken(tasks, categories, categories + rows, UserIds(), UserIds(), clock, now);
      CategoriesOkAppendAll(categories, rows, UserIds());
      categories := categories + rows;
      clock := now;
    }

    /** The second commit of register: the loop adds the three default
        categories of the new user to the session, one by one; the commit
        inserts them under consecutive keys. */
    method SeedDefaultCategories(owner: nat)
      requires Valid() && owner in UserIds()
      modifies this
      ensures Valid()
      ensures clock == old(clock) + 1
      ensures categories == old(categories) + DefaultCategoryRows(NextCategoryId(old(categories)), owner, clock)
      ensures users == old(users) && tasks == old(tasks)
    {
      var now := clock + 1;
      var first := NextCategoryId(categories);
      ghost var rows := DefaultCategoryRows(first, owner, now);
      var pending: seq<Category> := [];
      var i := 0;
      while i < |DefaultCategories|
        invariant 0 <= i <= |DefaultCategories|
        invariant pending == rows[..i]
      {
        var (name, color) := DefaultCategories[i];
        pending := pending + [Category(first + i, name, color, now, owner)];
        assert rows[..i + 1] == rows[..i] + [rows[i]];
        i := i + 1;
      }
      assert pending == rows;
      forall k | 0 <= k < |rows| ensures CategoryRowOk(rows[k], UserIds()) {
        DefaultCategoriesFit(k);
      }
      CommitCategories(pending, now);
    }

    /** login: the first user with this username, if the password checks
        out (against the fail-closed check); nobody otherwise. */
    function Authenticate(kdf: Kdf, username: string, password: string): (r: Option<nat>)
      reads this, users
      ensures (forall i :: 0 <= i < |users| ==> users[i].username != username) ==> r.None?
      ensures forall i ::
                (0 <= i < |users| && users[i].username == username &&
                 forall j :: 0 <= j < i ==> users[j].username != username) ==>
                r == if CheckStoredFailClosed(kdf, users[i].passwordHash, password)
                     then Some(users[i].id) else None
    {
      match Find(users, (u: User) => u.username == username)
      case None =>
        assert forall i :: 0 <= i < |users| ==> users[i].username != username;
        None
      case Some(k) =>
        assert forall i ::
                 (0 <= i < |users| && users[i].username == username &&
                  forall j :: 0 <= j < i ==> users[j].username != username) ==> i == k
        by {
          forall i | 0 <= i < |users| && users[i].username == username &&
                     forall j :: 0 <= j < i ==> users[j].username != username
            ensures i == k
          {
          }
        }
        if CheckStoredFailClosed(kdf, users[k].passwordHash, password) then Some(users[k].id) else None
    }

    /** Usernames are unique, so every stored user logs in under their
        username exactly with the passwords their hash accepts. */
    lemma LoginOfStoredUser(kdf: Kdf, i: nat, password: string)
      requires Valid() && i < |users|
      ensures Authenticate(kdf, users[i].username, password) ==
                if CheckStoredFailClosed(kdf, users[i].passwordHash, password) then Some(users[i].id) else None
    {
      assert forall j :: 0 <= j < i ==> users[j].username != users[i].username;
    }

    /** Every category belongs to a user whose key is already taken. */
    lemma CategoriesOwnedByEarlierUsers()
      requires Valid()
      ensures forall k :: 0 <= k < |categories| ==> categories[k].userId < NextUserId(users)
    {
      forall k | 0 <= k < |categories| ensures categories[k].userId < NextUserId(users) {
        assert CategoryRowOk(categories[k], UserIds());
        var u :| u in users && u.id == categories[k].userId;
        var j :| 0 <= j < |users| && users[j] == u;
      }
    }

    /** A username not taken is the username of no stored user. */
    lemma UsernameUnused(name: string)
      requires name !in Usernames()
      ensures forall i :: 0 <= i < |users| ==> users[i].username != name
    {
      forall i | 0 <= i < |users| ensures users[i].username != name {
        assert users[i] in users;
      }
    }

    /** An e-mail not taken is the e-mail of no stored user. */
    lemma EmailUnused(email: string)
      requires email !in Emails()
      ensures forall i :: 0 <= i < |users| ==> users[i].email != email
    {
      forall i | 0 <= i < |users| ensures users[i].email != email {
        assert users[i] in users;
      }
    }

    /** Appending a user who fits, with a key greater than every stored key
        and a username and e-mail no stored user has, keeps the user table
        consistent. */
    lemma UsersValidAppend(before: seq<User>, u: User)
      requires users == before + [u] && UserFits(u) && u.id == NextUserId(before)
      requires forall i :: 0 <= i < |before| ==> UserFits(before[i])
      requires forall i, j :: 0 <= i < j < |before| ==>
                 before[i].id != before[j].id && before[i].username != before[j].username &&
                 before[i].email != before[j].email
      requires forall i :: 0 <= i < |before| ==> before[i].username != u.username && before[i].email != u.email
      ensures UsersValid()
    {
    }

    /** Appending a user keeps every user id. */
    lemma UserIdsGrow(before: seq<User>, u: User)
      requires users == before + [u]
      ensures (set v | v in before :: v.id) <= UserIds()
    {
      forall x | x in (set v | v in before :: v.id) ensures x in UserIds() {
        var v :| v in before && v.id == x;
        assert v in users;
      }
    }

    /** The last user is the only one with this username, and holds the
        hash of password: login with q then succeeds exactly when the KDF
        cannot tell q from password. */
    lemma LoginAfterRegister(kdf: Kdf, username: string, password: string, entropy: seq<byte>)
      requires |entropy| == SaltBytes && users != []
      requires users[|users| - 1].username == username
      requires users[|users| - 1].passwordHash == Some(NewStoredValue(kdf, password, entropy))
      requires forall i :: 0 <= i < |users| - 1 ==> users[i].username != username
      ensures forall q :: Authenticate(kdf, username, q) ==
                if kdf(q, Hex(entropy)) == kdf(password, Hex(entropy)) then Some(users[|users| - 1].id) else None
    {
      forall q ensures Authenticate(kdf, username, q) ==
                if kdf(q, Hex(entropy)) == kdf(password, Hex(entropy)) then Some(users[|users| - 1].id) else None
      {
        LoginWith(kdf, username, password, entropy, q);
      }
    }

    /** LoginAfterRegister for one attempted password q. */
    lemma LoginWith(kdf: Kdf, username: string, password: string, entropy: seq<byte>, q: string)
      requires |entropy| == SaltBytes && users != []
      requires users[|users| - 1].username == username
      requires users[|users| - 1].passwordHash == Some(NewStoredValue(kdf, password, entropy))
      requires forall i :: 0 <= i < |users| - 1 ==> users[i].username != username
      ensures Authenticate(kdf, username, q) ==
                if kdf(q, Hex(entropy)) == kdf(password, Hex(entropy)) then Some(users[|users| - 1].id) else None
    {
      var found := Find(users, (v: User) => v.username == username);
      assert found == Some(|users| - 1);
      FailClosedAfterSet(kdf, password, q, entropy);
    }


    /** The two commits of register for an accepted form: exactly one new
        user, with the next key and the hash of the password, then exactly
        three categories owned by that user, with the fixed names and
        colours; the new user then logs in with exactly the passwords the
        KDF cannot tell from theirs. */
    method CommitRegistration(kdf: Kdf, form: RegistrationInput, entropy: seq<byte>) returns (uid: nat)
      requires Valid() && |entropy| == SaltBytes
      requires form.username !in Usernames() && form.email !in Emails()
      requires |form.username| <= MaxUsername
      modifies this
      ensures Valid()
      ensures uid == NextUserId(old(users))
      ensures |users| == |old(users)| + 1 && users[..|old(users)|] == old(users)
      ensures fresh(users[|old(users)|]) && users[|old(users)|].id == uid
      ensures users[|old(users)|].username == form.username && users[|old(users)|].email == form.email
      ensures users[|old(users)|].passwordHash == Some(NewStoredValue(kdf, form.password, entropy))
      ensures users[|old(users)|].createdAt == old(clock) + 1
      ensures clock == old(clock) + 2
      ensures categories == old(categories) + DefaultCategoryRows(NextCategoryId(old(categories)), uid, clock)
      ensures OwnedCategories(categories, uid) == DefaultCategoryRows(NextCategoryId(old(categories)), uid, clock)
      ensures tasks == old(tasks)
      ensures forall q :: Authenticate(kdf, form.username, q) ==
                if kdf(q, Hex(entropy)) == kdf(form.password, Hex(entropy)) then Some(uid) else None
    {
      ghost var oldCategories := categories;
      CategoriesOwnedByEarlierUsers();
      UsernameUnused(form.username);
      var u := AddUser(kdf, form.username, form.email, form.password, entropy);
      SeedDefaultCategories(u.id);
      SeededCategoriesOwned(oldCategories, DefaultCategoryRows(NextCategoryId(oldCategories), u.id, clock), u.id);
      LoginAfterRegister(kdf, form.username, form.password, entropy);
      uid := u.id;
    }

    /** register: a form that fails validation changes nothing; an accepted
        one is committed by CommitRegistration, whatever the length of its
        e-mail. */
    method Register(kdf: Kdf, form: RegistrationInput, entropy: seq<byte>) returns (res: Response)
      requires Valid() && |entropy| == SaltBytes
      modifies this
      ensures Valid()
      ensures var errors := RegistrationErrors(form, old(Usernames()), old(Emails()));
              errors != [] ==> res == Rejected(errors) && unchanged(this)
      ensures RegistrationErrors(form, old(Usernames()), old(Emails())) == [] ==>
                var n := |old(users)|;
                var uid := NextUserId(old(users));
                res == Registered(uid) && |users| == n + 1 && users[..n] == old(users) &&
                fresh(users[n]) && users[n].id == uid &&
                users[n].username == form.username && users[n].email == form.email &&
                users[n].passwordHash == Some(NewStoredValue(kdf, form.password, entropy)) &&
                users[n].createdAt == old(clock) + 1 && clock == old(clock) + 2 &&
                categories == old(categories) + DefaultCategoryRows(NextCategoryId(old(categories)), uid, clock) &&
                OwnedCategories(categories, uid) == DefaultCategoryRows(NextCategoryId(old(categories)), uid, clock) &&
                tasks == old(tasks)
      ensures res.Registered? ==>
                forall q :: Authenticate(kdf, form.username, q) ==
                  if kdf(q, Hex(entropy)) == kdf(form.password, Hex(entropy)) then Some(res.userId) else None
    {
      var errors := RegistrationErrors(form, Usernames(), Emails());
      if errors != [] {
        return Rejected(errors);
      }
      AcceptedRegistrationFits(form, Usernames(), Emails());
      var uid := CommitRegistration(kdf, form, entropy);
      res := Registered(uid);
    }

    /** register with the e-mail field bounded by its column: the addresses
        longer than the column are rejected, so every user it stores fits
        the e-mail column. */
    method RegisterBounded(kdf: Kdf, form: RegistrationInput, entropy: seq<byte>) returns (res: Response)
      requires Valid() && |entropy| == SaltBytes
      modifies this
      ensures Valid()
      ensures var errors := BoundedRegistrationErrors(form, old(Usernames()), old(Emails()));
              errors != [] ==> res == Rejected(errors) && unchanged(this)
      ensures BoundedRegistrationErrors(form, old(Usernames()), old(Emails())) == [] ==>
                var n := |old(users)|;
                res == Registered(NextUserId(old(users))) && |users| == n + 1 && users[..n] == old(users) &&
                fresh(users[n]) && users[n].id == NextUserId(old(users)) &&
                users[n].username == form.username && users[n].email == form.email &&
                |users[n].email| <= MaxEmail &&
                users[n].passwordHash == Some(NewStoredValue(kdf, form.password, entropy)) &&
                users[n].createdAt == old(clock) + 1 && clock == old(clock) + 2 &&
                categories == old(categories) +
                  DefaultCategoryRows(NextCategoryId(old(categories)), NextUserId(old(users)), clock) &&
                OwnedCategories(categories, NextUserId(old(users))) ==
                  DefaultCategoryRows(NextCategoryId(old(categories)), NextUserId(old(users)), clock) &&
                tasks == old(tasks)
      ensures res.Registered? ==>
                forall q :: Authenticate(kdf, form.username, q) ==
                  if kdf(q, Hex(entropy)) == kdf(form.password, Hex(entropy)) then Some(res.userId) else None
    {
      var errors := BoundedRegistrationErrors(form, Usernames(), Emails());
      if errors != [] {
        return Rejected(errors);
      }
      BoundedRegistrationAccepted(form, Usernames(), Emails());
      AcceptedRegistrationFits(form, Usernames(), Emails());
      var uid := CommitRegistration(kdf, form, entropy);
      res := Registered(uid);
    }

    /** Every hash in a consistent database was written by set_password, so
        check_password as written never raises on a stored user: it answers. */
    lemma StoredHashesNeverRaise(kdf: Kdf, password: string)
      requires Valid()
      ensures forall u :: u in users ==> u.CheckPassword(kdf, password).Answer?
    {
      forall u | u in users ensures u.CheckPassword(kdf, password).Answer? {
        var i :| 0 <= i < |users| && users[i] == u;
        assert UserFits(users[i]);
        HexStoredParts(u.passwordHash.value);
      }
    }

    /** So on a consistent database login's fail-closed check answers
        exactly what check_password as written answers. */
    lemma StoredCheckAgrees(kdf: Kdf, password: string)
      requires Valid()
      ensures forall i :: 0 <= i < |users| ==>
                users[i].CheckPassword(kdf, password) ==
                Answer(CheckStoredFailClosed(kdf, users[i].passwordHash, password))
    {
      StoredHashesNeverRaise(kdf, password);
      forall i | 0 <= i < |users|
        ensures users[i].CheckPassword(kdf, password) ==
                Answer(CheckStoredFailClosed(kdf, users[i].passwordHash, password))
      {
        assert users[i] in users;
      }
    }
  }
}
