/** How the dashboard's local list update relates to the server's list. */
module Agreement {
  import opened Types
  import opened TaskRoutes
  import Dashboard

  /** When the dashboard shows the caller's server list and the new task is
      newer than every stored one, prepending the created task gives exactly
      the list the server would now return, so no refetch is needed. */
  lemma CreateKeepsClientInStep(stored: seq<Task>, user: UserId, t: Task, st: Dashboard.State)
    requires t.owner == user
    requires forall k :: 0 <= k < |stored| ==> stored[k].createdAt < t.createdAt
    requires st.tasks == SortNewestFirst(OwnedBy(stored, user))
    ensures Dashboard.HandleCreate(st, Some(t)).tasks == SortNewestFirst(OwnedBy(stored + [t], user))
  {
    var mine := OwnedBy(stored, user);
    OwnedByConcat(stored, [t], user);
    assert OwnedBy([t], user) == [t] by {
      assert [t][1..] == [];
    }
    forall k | 0 <= k < |mine| ensures mine[k].createdAt < t.createdAt {
      assert mine[k] in stored;
    }
    NewestGoesFirst(mine, t);
  }
}
