/** The read-only queries of the routes: the filtered, ordered task listing
    of task_list, the five newest tasks of index, and the acting user's
    categories. The acting user is passed in as owner. */
module Queries {
  import opened Wrappers
  import opened Text
  import opened Models
  import opened Seqs
  import opened Search

  /** The query-string arguments of task_list; None when absent (or, for
      category_id, not an integer). */
  datatype TaskQuery = TaskQuery(categoryId: Option<int>, status: Option<string>, search: Option<string>)

  /** `if category_id:` — a present, non-zero id. */
  predicate CategoryFilterApplies(q: TaskQuery)
  {
    q.categoryId.Some? && q.categoryId.value != 0
  }

  predicate KeepCategory(t: Task, q: TaskQuery)
  {
    !CategoryFilterApplies(q) || (t.categoryId.Some? && t.categoryId.value == q.categoryId.value)
  }

  /** 'completed' keeps the done tasks, 'active' the open ones, anything else
      keeps all. */
  predicate KeepStatus(t: Task, q: TaskQuery)
  {
    if q.status == Some("completed") then t.completed
    else if q.status == Some("active") then !t.completed
    else true
  }

  /** `if search and search.strip():` */
  predicate SearchApplies(q: TaskQuery)
  {
    q.search.Some? && Strip(q.search.value) != []
  }

  /** title ILIKE '%term%' OR description ILIKE '%term%'; a missing
      description matches nothing (NULL ILIKE is not true). */
  predicate MatchesSearch(t: Task, term: string)
  {
    ILike(t.title, SearchPattern(term)) ||
    (t.description.Some? && ILike(t.description.value, SearchPattern(term)))
  }

  predicate KeepSearch(t: Task, q: TaskQuery)
  {
    !SearchApplies(q) || MatchesSearch(t, Strip(q.search.value))
  }

  /** The rows the filter chain of task_list keeps for the acting user. */
  predicate Selected(t: Task, owner: nat, q: TaskQuery)
  {
    t.userId == owner && KeepCategory(t, q) && KeepStatus(t, q) && KeepSearch(t, q)
  }

  /** The search the page offers: the term occurs, ignoring ASCII case, in
      the title or in the description. */
  predicate MatchesLiteral(t: Task, term: string)
  {
    ContainsIgnoringCase(t.title, term) ||
    (t.description.Some? && ContainsIgnoringCase(t.description.value, term))
  }

  /** The filter chain with the search taken as literal text. */
  predicate SelectedLiteral(t: Task, owner: nat, q: TaskQuery)
  {
    t.userId == owner && KeepCategory(t, q) && KeepStatus(t, q) &&
    (!SearchApplies(q) || MatchesLiteral(t, Strip(q.search.value)))
  }

  /** due_date ASC with SQLite's placement of NULL: before every date. */
  predicate DueNoLater(a: Option<nat>, b: Option<nat>)
  {
    a.None? || (b.Some? && a.value <= b.value)
  }

  /** ORDER BY priority ASC, due_date ASC. */
  predicate ListingOrder(a: Task, b: Task)
  {
    a.priority < b.priority || (a.priority == b.priority && DueNoLater(a.due, b.due))
  }

  lemma ListingOrderIsTotalPreorder()
    ensures TotalPreorder(ListingOrder)
  {
  }

  /** task_list: exactly the acting user's tasks that pass every filter
      (each as often as it is stored), by priority and then due date. */
  function TaskList(tasks: seq<Task>, owner: nat, q: TaskQuery): (r: seq<Task>)
    ensures forall t :: t in r <==> t in tasks && Selected(t, owner, q)
    ensures forall t :: multiset(r)[t] == if Selected(t, owner, q) then multiset(tasks)[t] else 0
    ensures Sorted(r, ListingOrder)
  {
    var kept := Filter(tasks, t => Selected(t, owner, q));
    ListingOrderIsTotalPreorder();
    SortBySorted(kept, ListingOrder);
    assert forall t :: t in kept <==> t in multiset(kept);
    SortBy(kept, ListingOrder)
  }

  /** task_list with the search term taken literally, '%' and '_'
      included: the same filters and the same order. */
  function IntendedTaskList(tasks: seq<Task>, owner: nat, q: TaskQuery): (r: seq<Task>)
    ensures forall t :: t in r <==> t in tasks && SelectedLiteral(t, owner, q)
    ensures forall t :: multiset(r)[t] == if SelectedLiteral(t, owner, q) then multiset(tasks)[t] else 0
    ensures Sorted(r, ListingOrder)
  {
    var kept := Filter(tasks, t => SelectedLiteral(t, owner, q));
    ListingOrderIsTotalPreorder();
    SortBySorted(kept, ListingOrder);
    assert forall t :: t in kept <==> t in multiset(kept);
    SortBy(kept, ListingOrder)
  }

  /** Two selections that agree on every element keep the same elements. */
  lemma {:induction false} FilterAgree<T(!new)>(s: seq<T>, p: T -> bool, p': T -> bool)
    requires forall x :: x in s ==> p(x) == p'(x)
    ensures Filter(s, p) == Filter(s, p')
  {
    if s != [] {
      FilterAgree(s[1..], p, p');
    }
  }

  /** Two queries that select the same rows list the same tasks in the same order. */
  lemma SameSelectionSameListing(tasks: seq<Task>, owner: nat, q: TaskQuery, q': TaskQuery)
    requires forall t :: t in tasks ==> Selected(t, owner, q) == Selected(t, owner, q')
    ensures TaskList(tasks, owner, q) == TaskList(tasks, owner, q')
  {
    FilterAgree(tasks, t => Selected(t, owner, q), t => Selected(t, owner, q'));
  }

  /** A status other than 'completed' or 'active' filters nothing. */
  lemma OtherStatusIgnored(tasks: seq<Task>, owner: nat, q: TaskQuery)
    requires q.status != Some("completed") && q.status != Some("active")
    ensures TaskList(tasks, owner, q) == TaskList(tasks, owner, q.(status := None))
  {
    SameSelectionSameListing(tasks, owner, q, q.(status := None));
  }

  /** category_id=0 filters nothing. */
  lemma CategoryZeroIgnored(tasks: seq<Task>, owner: nat, q: TaskQuery)
    requires q.categoryId == Some(0)
    ensures TaskList(tasks, owner, q) == TaskList(tasks, owner, q.(categoryId := None))
  {
    SameSelectionSameListing(tasks, owner, q, q.(categoryId := None));
  }

  /** A search of only white space filters nothing. */
  lemma BlankSearchIgnored(tasks: seq<Task>, owner: nat, q: TaskQuery)
    requires q.search.Some? && AllSpace(q.search.value)
    ensures TaskList(tasks, owner, q) == TaskList(tasks, owner, q.(search := None))
  {
    SameSelectionSameListing(tasks, owner, q, q.(search := None));
  }

  /** With status 'completed' the listing is exactly the acting user's
      completed tasks that pass the other filters; with 'active' the open ones. */
  lemma StatusSelectsCompletion(tasks: seq<Task>, owner: nat, q: TaskQuery, t: Task)
    requires q.status == Some("completed") || q.status == Some("active")
    ensures t in TaskList(tasks, owner, q) <==>
              t in tasks && t.userId == owner && t.completed == (q.status == Some("completed")) &&
              KeepCategory(t, q) && KeepSearch(t, q)
  {
  }

  /** A task without description is listed under a search exactly when it
      passes the other filters and its title matches the pattern. */
  lemma NoDescriptionSearchesTitle(tasks: seq<Task>, owner: nat, q: TaskQuery, t: Task)
    requires SearchApplies(q) && t.description.None?
    ensures t in TaskList(tasks, owner, q) <==>
              t in tasks && t.userId == owner && KeepCategory(t, q) && KeepStatus(t, q) &&
              ILike(t.title, SearchPattern(Strip(q.search.value)))
  {
  }

  /** A term without '%' or '_' selects a task exactly when it occurs,
      ignoring case, in its title or in its description. */
  lemma LiteralSearchSelects(t: Task, term: string)
    requires Literal(term)
    ensures MatchesSearch(t, term) <==> MatchesLiteral(t, term)
  {
    ILikeAgreesWithoutWildcards(t.title, term);
    if t.description.Some? {
      ILikeAgreesWithoutWildcards(t.description.value, term);
    }
  }

  /** For a search term without wildcards the listing as written is the
      intended one. */
  lemma ListingAgreesWithoutWildcards(tasks: seq<Task>, owner: nat, q: TaskQuery)
    requires SearchApplies(q) ==> Literal(Strip(q.search.value))
    ensures TaskList(tasks, owner, q) == IntendedTaskList(tasks, owner, q)
  {
    forall t | t in tasks ensures Selected(t, owner, q) == SelectedLiteral(t, owner, q) {
      if SearchApplies(q) {
        LiteralSearchSelects(t, Strip(q.search.value));
      }
    }
    FilterAgree(tasks, t => Selected(t, owner, q), t => SelectedLiteral(t, owner, q));
  }

  /** The task "axb" the search "a_b" lists, though "a_b" does not occur in it. */
  function UnderscoreSample(): Task
  {
    Task(1, "axb", None, false, 2, None, 0, 0, 1, None)
  }

  /** As written, searching "a_b" lists a task titled "axb"; the intended
      listing leaves it out. */
  lemma UnderscoreSearchListsNonMatch()
    ensures UnderscoreSample() in TaskList([UnderscoreSample()], 1, TaskQuery(None, None, Some("a_b")))
    ensures UnderscoreSample() !in IntendedTaskList([UnderscoreSample()], 1, TaskQuery(None, None, Some("a_b")))
  {
    var q := TaskQuery(None, None, Some("a_b"));
    StripKeepsInnerText("a_b");
    UnderscoreMatchesAnyChar();
    assert Selected(UnderscoreSample(), 1, q);
    assert !SelectedLiteral(UnderscoreSample(), 1, q);
  }

  /** Neighbours in the listing are in priority order, and by due date
      (undated first) within one priority. */
  lemma ListingIsOrdered(tasks: seq<Task>, owner: nat, q: TaskQuery, i: nat, j: nat)
    requires i < j < |TaskList(tasks, owner, q)|
    ensures var r := TaskList(tasks, owner, q);
            r[i].priority <= r[j].priority &&
            (r[i].priority == r[j].priority ==> DueNoLater(r[i].due, r[j].due))
  {
  }

  /** ORDER BY created_at DESC. */
  predicate NewerFirst(a: Task, b: Task)
  {
    a.createdAt >= b.createdAt
  }

  lemma NewerFirstIsTotalPreorder()
    ensures TotalPreorder(NewerFirst)
  {
  }

  /** The LIMIT of the index page. */
  const LatestCount: nat := 5

  /** index: the acting user's tasks, newest first, at most five, none
      listed more often than it is stored. */
  function LatestTasks(tasks: seq<Task>, owner: nat): (r: seq<Task>)
    ensures |r| <= LatestCount
    ensures forall t :: t in r ==> t in tasks && t.userId == owner
    ensures forall t :: multiset(r)[t] <= multiset(tasks)[t]
    ensures Sorted(r, NewerFirst)
  {
    var own := Filter(tasks, (x: Task) => x.userId == owner);
    var sorted := SortBy(own, NewerFirst);
    NewerFirstIsTotalPreorder();
    SortBySorted(own, NewerFirst);
    TakeSorted(sorted, LatestCount, NewerFirst);
    assert forall t :: t in sorted ==> t in own by {
      forall t | t in sorted ensures t in own {
        assert t in multiset(sorted);
      }
    }
    Take(sorted, LatestCount)
  }

  /** A task of the acting user that the index leaves out is no newer than
      any task it shows, and then five tasks are shown. */
  lemma LatestAreNewest(tasks: seq<Task>, owner: nat, t: Task)
    requires t in tasks && t.userId == owner && t !in LatestTasks(tasks, owner)
    ensures |LatestTasks(tasks, owner)| == LatestCount
    ensures forall u :: u in LatestTasks(tasks, owner) ==> u.createdAt >= t.createdAt
  {
    var own := Filter(tasks, (x: Task) => x.userId == owner);
    var sorted := SortBy(own, NewerFirst);
    NewerFirstIsTotalPreorder();
    SortBySorted(own, NewerFirst);
    assert t in multiset(sorted);
    var j :| 0 <= j < |sorted| && sorted[j] == t;
    assert LatestTasks(tasks, owner) == Take(sorted, LatestCount);
    TakeSortedDominates(sorted, LatestCount, j, NewerFirst);
  }

  /** The acting user's categories, in table order (category_list, and the
      category choices of the task forms). */
  function OwnedCategories(categories: seq<Category>, owner: nat): (r: seq<Category>)
    ensures forall c :: c in r <==> c in categories && c.userId == owner
    ensures forall c :: multiset(r)[c] == if c.userId == owner then multiset(categories)[c] else 0
  {
    Filter(categories, (c: Category) => c.userId == owner)
  }
}
