/** AppDbContext: the Users and Tasks tables. The model keeps each table as a
    sequence in insertion order, which is the order an unordered query
    enumerates, together with the next value of each identity column. */
module Data {
  import opened Entities

  /** One more than the largest user id, and at least 1: the value an
      identity column hands out next. */
  function NextUserKey(users: seq<User>): (n: int)
    ensures n >= 1
    ensures forall u <- users :: u.id < n
  {
    if users == [] then 1
    else
      var rest := NextUserKey(users[1..]);
      assert forall u <- users[1..] :: u.id < rest;
      if users[0].id >= rest then users[0].id + 1 else rest
  }

  function NextTaskKey(tasks: seq<Task>): (n: int)
    ensures n >= 1
    ensures forall t <- tasks :: t.id < n
  {
    if tasks == [] then 1
    else
      var rest := NextTaskKey(tasks[1..]);
      assert forall t <- tasks[1..] :: t.id < rest;
      if tasks[0].id >= rest then tasks[0].id + 1 else rest
  }

  class AppDbContext {
    var users: seq<User>
    var tasks: seq<Task>
    var nextUserId: int
    var nextTaskId: int

    /** The primary keys are unique and below the next identity value, and
        user names are unique (register and profile update keep them so). */
    ghost predicate Valid()
      reads this
    {
      && UniqueUserIds(users)
      && UniqueUserNames(users)
      && UniqueTaskIds(tasks)
      && (forall u <- users :: u.id < nextUserId)
      && (forall t <- tasks :: t.id < nextTaskId)
    }

    /** A context over seeded tables (SeedData, or a test fixture). */
    constructor (users: seq<User>, tasks: seq<Task>)
      requires UniqueUserIds(users) && UniqueUserNames(users) && UniqueTaskIds(tasks)
      ensures Valid()
      ensures this.users == users && this.tasks == tasks
    {
      this.users := users;
      this.tasks := tasks;
      nextUserId := NextUserKey(users);
      nextTaskId := NextTaskKey(tasks);
    }
  }
}
