/**
 * Tasks as the rollover pass sees them: a description, the kind marker
 * ("initials", "R" for a recurring task), the rendered due date and the due
 * instant in milliseconds. Also the operations of the task list that the pass
 * relies on, as functions over sequences: description search, removal of
 * stale recurring copies, and removal of the first equal element.
 */
module Tasks {

  /** The kind marker that recurring tasks report from getInitials(). */
  const RECURRING_INITIALS: string := "R"

  /** Milliseconds in a day, as the source writes it: 24 * 60 * 60 * 1000. */
  const DAY_MILLIS: int := 24 * 60 * 60 * 1000

  /** The recurrence period: plusDays(7) taken as a fixed number of milliseconds. */
  const WEEK_MILLIS: int := 7 * DAY_MILLIS

  datatype Task = Task(description: string, initials: string, dueText: string, date: int)

  /** The two collections the pass reconciles: the flat list and the registry. */
  datatype TaskState = TaskState(tasks: seq<Task>, registry: map<Task, Task>)

  predicate IsRecurring(t: Task) {
    t.initials == RECURRING_INITIALS
  }

  predicate IsPrefix(p: string, s: string) {
    |p| <= |s| && p == s[..|p|]
  }

  /** Whether `fragment` occurs somewhere in `s`. */
  predicate Contains(s: string, fragment: string)
    decreases |s|
  {
    IsPrefix(fragment, s) || (|s| > 0 && Contains(s[1..], fragment))
  }

  /** `fragment` occurs in `s` starting at position `i`. */
  predicate OccursAt(s: string, fragment: string, i: int) {
    0 <= i <= |s| - |fragment| && s[i..i + |fragment|] == fragment
  }

  /** Contains agrees with the positional definition of a substring. */
  lemma {:induction false} ContainsAt(s: string, fragment: string)
    ensures Contains(s, fragment) <==> exists i :: OccursAt(s, fragment, i)
    decreases |s|
  {
    if IsPrefix(fragment, s) {
      assert OccursAt(s, fragment, 0);
    } else if |s| == 0 {
      assert !Contains(s, fragment);
    } else {
      ContainsAt(s[1..], fragment);
      if Contains(s, fragment) {
        var i :| OccursAt(s[1..], fragment, i);
        TailSlice(s, i, i + |fragment|);
        assert OccursAt(s, fragment, i + 1);
      } else {
        forall i | OccursAt(s, fragment, i)
          ensures false
        {
          assert i != 0;
          TailSlice(s, i - 1, i - 1 + |fragment|);
          assert OccursAt(s[1..], fragment, i - 1);
        }
      }
    }
  }

  lemma TailSlice(s: string, lo: int, hi: int)
    requires |s| > 0 && 0 <= lo <= hi <= |s| - 1
    ensures s[1..][lo..hi] == s[lo + 1..hi + 1]
  {
    assert forall k :: 0 <= k < hi - lo ==> s[1..][lo..hi][k] == s[lo + 1..hi + 1][k];
  }

  lemma ContainsSelf(s: string)
    ensures Contains(s, s)
  {
    assert IsPrefix(s, s);
  }

  /** The search hits for `fragment`, in list order. */
  function Search(tasks: seq<Task>, fragment: string): (hits: seq<Task>)
  {
    if tasks == [] then []
    else (if Contains(tasks[0].description, fragment) then [tasks[0]] else [])
         + Search(tasks[1..], fragment)
  }

  /** A task is a search hit exactly when it is listed and its description contains the fragment. */
  lemma {:induction false} SearchMembership(tasks: seq<Task>, fragment: string, t: Task)
    ensures t in Search(tasks, fragment) <==> t in tasks && Contains(t.description, fragment)
  {
    if tasks != [] {
      SearchMembership(tasks[1..], fragment, t);
      assert tasks == [tasks[0]] + tasks[1..];
    }
  }

  /** Search keeps the order: it acts on each part of a list separately. */
  lemma {:induction false} SearchAppend(a: seq<Task>, b: seq<Task>, fragment: string)
    ensures Search(a + b, fragment) == Search(a, fragment) + Search(b, fragment)
  {
    if a == [] {
      assert a + b == b;
    } else {
      assert (a + b)[0] == a[0];
      assert (a + b)[1..] == a[1..] + b;
      SearchAppend(a[1..], b, fragment);
    }
  }

  /** A task the pass deletes when it regenerates `description`: a recurring search hit. */
  predicate IsStale(t: Task, description: string) {
    IsRecurring(t) && Contains(t.description, description)
  }

  /** The list with every stale copy of `description` removed, in list order. */
  function WithoutStale(tasks: seq<Task>, description: string): (kept: seq<Task>)
  {
    if tasks == [] then []
    else
      (if IsStale(tasks[0], description) then [] else [tasks[0]])
      + WithoutStale(tasks[1..], description)
  }

  /** A task survives the removal exactly when it was listed and is not a stale copy. */
  lemma {:induction false} WithoutStaleMembership(tasks: seq<Task>, description: string, t: Task)
    ensures t in WithoutStale(tasks, description) <==> t in tasks && !IsStale(t, description)
  {
    if tasks != [] {
      WithoutStaleMembership(tasks[1..], description, t);
      assert tasks == [tasks[0]] + tasks[1..];
    }
  }

  /** Removal of stale copies keeps the order: it acts on each part of a list separately. */
  lemma {:induction false} WithoutStaleAppend(a: seq<Task>, b: seq<Task>, description: string)
    ensures WithoutStale(a + b, description) == WithoutStale(a, description) + WithoutStale(b, description)
  {
    if a == [] {
      assert a + b == b;
    } else {
      assert (a + b)[0] == a[0];
      assert (a + b)[1..] == a[1..] + b;
      WithoutStaleAppend(a[1..], b, description);
    }
  }

  /** ArrayList.remove(Object): the list without the first element equal to `x`. */
  function RemoveFirst(tasks: seq<Task>, x: Task): (r: seq<Task>)
    ensures x !in tasks ==> r == tasks
  {
    if tasks == [] then []
    else if tasks[0] == x then
      assert tasks == [x] + tasks[1..];
      tasks[1..]
    else
      assert tasks == [tasks[0]] + tasks[1..];
      [tasks[0]] + RemoveFirst(tasks[1..], x)
  }

  /** Removing the first copy of `x` takes out the one after a prefix without `x`. */
  lemma {:induction false} RemoveFirstAfter(a: seq<Task>, x: Task, b: seq<Task>)
    requires x !in a
    ensures RemoveFirst(a + [x] + b, x) == a + b
  {
    if a != [] {
      assert (a + [x] + b)[1..] == a[1..] + [x] + b;
      RemoveFirstAfter(a[1..], x, b);
    }
  }

  /** Removing stale copies drops every occurrence of a stale task and keeps every other one. */
  lemma {:induction false} CountWithoutStale(tasks: seq<Task>, description: string, x: Task)
    ensures multiset(WithoutStale(tasks, description))[x] ==
            if IsStale(x, description) then 0 else multiset(tasks)[x]
  {
    if tasks != [] {
      CountWithoutStale(tasks[1..], description, x);
      assert tasks == [tasks[0]] + tasks[1..];
    }
  }

  /**
   * The list after the deletion loop has gone through `hits` in order,
   * deleting the first copy of each hit whose initials are "R".
   */
  function DeleteHits(tasks: seq<Task>, hits: seq<Task>): seq<Task> {
    if hits == [] then tasks
    else
      var last := |hits| - 1;
      var before := DeleteHits(tasks, hits[..last]);
      if IsRecurring(hits[last]) then RemoveFirst(before, hits[last]) else before
  }

  /** Search of a list extended by one entry. */
  lemma SearchSnoc(a: seq<Task>, x: Task, fragment: string)
    ensures Search(a + [x], fragment)
            == Search(a, fragment) + (if Contains(x.description, fragment) then [x] else [])
  {
    SearchAppend(a, [x], fragment);
    assert [x][1..] == [];
  }

  /** Removal of stale copies from a list extended by one entry. */
  lemma WithoutStaleSnoc(a: seq<Task>, x: Task, description: string)
    ensures WithoutStale(a + [x], description)
            == WithoutStale(a, description) + (if IsStale(x, description) then [] else [x])
  {
    WithoutStaleAppend(a, [x], description);
    assert [x][1..] == [];
  }

  /** The deletion loop going through one more hit. */
  lemma DeleteHitsSnoc(tasks: seq<Task>, hits: seq<Task>, x: Task)
    ensures DeleteHits(tasks, hits + [x])
            == if IsRecurring(x) then RemoveFirst(DeleteHits(tasks, hits), x) else DeleteHits(tasks, hits)
  {
    assert (hits + [x])[..|hits|] == hits;
  }

  /** One more entry of the list: a stale entry goes, any other entry stays. */
  lemma DeleteHitsStep(tasks: seq<Task>, description: string, m: nat)
    requires m < |tasks|
    requires DeleteHits(tasks, Search(tasks[..m], description))
             == WithoutStale(tasks[..m], description) + tasks[m..]
    ensures DeleteHits(tasks, Search(tasks[..m + 1], description))
            == WithoutStale(tasks[..m + 1], description) + tasks[m + 1..]
  {
    var x := tasks[m];
    var done := WithoutStale(tasks[..m], description);
    var rest := tasks[m + 1..];
    assert tasks[..m + 1] == tasks[..m] + [x];
    assert tasks[m..] == [x] + rest;
    var before := Search(tasks[..m], description);
    SearchSnoc(tasks[..m], x, description);
    WithoutStaleSnoc(tasks[..m], x, description);
    assert done + tasks[m..] == done + [x] + rest;
    if IsStale(x, description) {
      assert Search(tasks[..m + 1], description) == before + [x];
      assert WithoutStale(tasks[..m + 1], description) == done;
      calc {
        DeleteHits(tasks, before + [x]);
        { DeleteHitsSnoc(tasks, before, x); }
        RemoveFirst(done + [x] + rest, x);
        { WithoutStaleMembership(tasks[..m], description, x);
          RemoveFirstAfter(done, x, rest); }
        done + rest;
      }
    } else {
      assert WithoutStale(tasks[..m + 1], description) == done + [x];
      assert DeleteHits(tasks, Search(tasks[..m + 1], description)) == done + tasks[m..] by {
        if Contains(x.description, description) {
          assert Search(tasks[..m + 1], description) == before + [x];
          DeleteHitsSnoc(tasks, before, x);
        } else {
          assert Search(tasks[..m + 1], description) == before + [] == before;
        }
      }
    }
  }

  /**
   * Going through the search hits of the first n entries deletes exactly the
   * stale entries among them and leaves the rest of the list as it was.
   */
  lemma {:induction false} DeleteHitsOfPrefix(tasks: seq<Task>, description: string, n: nat)
    requires n <= |tasks|
    ensures DeleteHits(tasks, Search(tasks[..n], description))
            == WithoutStale(tasks[..n], description) + tasks[n..]
  {
    if n == 0 {
      assert tasks[..0] == [] && tasks[0..] == tasks;
    } else {
      DeleteHitsOfPrefix(tasks, description, n - 1);
      DeleteHitsStep(tasks, description, n - 1);
    }
  }

  /** The deletion loop over all search hits for a description removes exactly its stale copies. */
  lemma DeleteAllHits(tasks: seq<Task>, description: string)
    ensures DeleteHits(tasks, Search(tasks, description)) == WithoutStale(tasks, description)
  {
    DeleteHitsOfPrefix(tasks, description, |tasks|);
    assert tasks[..|tasks|] == tasks;
  }
}
