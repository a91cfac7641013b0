/**
 * The page-restore specification: which manifest pages a restore fetches,
 * schedules and marks current, what it leaves in the two stores, and the
 * order of the control loop's actions.
 *
 * Page numbers are array positions in the manifest's `Links`. The page store
 * maps a page number to the page's bytes, and the sentinel key -1 to the
 * file-size record; the current-pages store maps a page number to the
 * fingerprint last applied to it.
 */
module Pages {
  import opened Wrappers
  import References

  type Bytes = seq<bv8>

  /** A manifest link: the `Cid["/"]` text when the link carries one, and `Hash` as text. */
  datatype Link = Link(cid: Option<string>, hash: string)

  /**
   * `link.Cid["/"] || link.Hash.toString()`: a present, non-empty Cid wins;
   * a missing or empty (falsy) Cid falls back to the hash.
   */
  function Fingerprint(link: Link): (fp: string)
    ensures link.cid.Some? && link.cid.value != "" ==> fp == link.cid.value
    ensures link.cid.None? || link.cid.value == "" ==> fp == link.hash
  {
    if link.cid.Some? && link.cid.value != "" then link.cid.value else link.hash
  }

  /** An entry of the page store. */
  datatype Record = Page(bytes: Bytes) | FileSize(size: int, cid: string)

  /** Key of the file-size record in the page store. */
  const FileSizeKey: int := -1

  /** Page download by fingerprint; None stands for a failed or timed-out request. */
  type Fetcher = string -> Option<Bytes>

  /** Page k is up to date when the stored fingerprint equals the link's (`existingLinkString === linkString`). */
  predicate IsCurrent(links: seq<Link>, current: map<int, string>, k: int)
    requires 0 <= k < |links|
  {
    k in current && current[k] == Fingerprint(links[k])
  }

  /** Page 0 needs fetching and its download fails: the restore stops before writing anything. */
  predicate Page0Unavailable(links: seq<Link>, current: map<int, string>, fetch: Fetcher)
  {
    0 < |links| && !IsCurrent(links, current, 0) && fetch(Fingerprint(links[0])).None?
  }

  /** The current-pages store once pages 0 .. n-1 have been visited. */
  function ConvergedUpTo(links: seq<Link>, current: map<int, string>, n: nat): map<int, string>
    requires n <= |links|
  {
    current + map k | 0 <= k < n :: Fingerprint(links[k])
  }

  /** The current-pages store after a restore: every manifest page holds its link's fingerprint. */
  function Converge(links: seq<Link>, current: map<int, string>): (next: map<int, string>)
    ensures forall k :: 0 <= k < |links| ==> k in next && next[k] == Fingerprint(links[k])
    ensures forall k :: k < 0 || |links| <= k ==> (k in next <==> k in current) && (k in next ==> next[k] == current[k])
  {
    ConvergedUpTo(links, current, |links|)
  }

  /** Visiting page n reads the stored fingerprint of page n, and marking it extends the converged prefix. */
  lemma ConvergedUpToStep(links: seq<Link>, current: map<int, string>, n: nat)
    requires n < |links|
    ensures (n in ConvergedUpTo(links, current, n)) == (n in current)
    ensures n in current ==> ConvergedUpTo(links, current, n)[n] == current[n]
    ensures ConvergedUpTo(links, current, n)[n := Fingerprint(links[n])] == ConvergedUpTo(links, current, n + 1)
    ensures IsCurrent(links, current, n) ==> ConvergedUpTo(links, current, n) == ConvergedUpTo(links, current, n + 1)
  {
    var before := ConvergedUpTo(links, current, n);
    var after := ConvergedUpTo(links, current, n + 1);
    assert before[n := Fingerprint(links[n])] == after;
  }

  /** What the restore loop does, in order. */
  datatype Action =
    | FetchPage(page: int)
    | PutFileSize(size: int)
    | PutPage(page: int)
    | Schedule(page: int)
    | MarkCurrent(page: int, fingerprint: string)

  /**
   * The loop's actions for page k: nothing when the page is current; for page
   * 0 a download, the size record, the download and save of `#savePageToDB`,
   * and the mark; for any other page a scheduled save and the mark.
   */
  function PageActions(links: seq<Link>, current: map<int, string>, fetch: Fetcher, k: nat): seq<Action>
    requires k < |links|
  {
    var fp := Fingerprint(links[k]);
    if IsCurrent(links, current, k) then []
    else if k == 0 then
      match fetch(fp)
      case None => [FetchPage(0)]
      case Some(bytes) => [FetchPage(0), PutFileSize(|bytes| * |links|), FetchPage(0), PutPage(0), MarkCurrent(0, fp)]
    else [Schedule(k), MarkCurrent(k, fp)]
  }

  /** The loop's actions for pages 0 .. n-1. */
  function Actions(links: seq<Link>, current: map<int, string>, fetch: Fetcher, n: nat): seq<Action>
    requires n <= |links|
  {
    if n == 0 then [] else Actions(links, current, fetch, n - 1) + PageActions(links, current, fetch, n - 1)
  }

  /** A scheduled save: the captured `pageToSave` and `linkToSave`. */
  datatype Task = Task(page: int, link: Link)

  /** `pageRestoresInProgress` after pages 0 .. n-1: one task per stale non-zero page, in page order. */
  function PendingTasks(links: seq<Link>, current: map<int, string>, n: nat): seq<Task>
    requires n <= |links|
  {
    if n == 0 then []
    else
      PendingTasks(links, current, n - 1) +
      (if n - 1 > 0 && !IsCurrent(links, current, n - 1) then [Task(n - 1, links[n - 1])] else [])
  }

  /** The tasks handed to the limiter, as a set. */
  function TaskSet(tasks: seq<Task>): set<Task>
  {
    set t | t in tasks
  }

  /** The tasks a whole restore schedules. */
  function ScheduledSet(links: seq<Link>, current: map<int, string>): set<Task>
  {
    TaskSet(PendingTasks(links, current, |links|))
  }

  /** Distinct tasks save distinct keys. */
  predicate OwnKeys(tasks: set<Task>)
  {
    forall t1, t2 :: t1 in tasks && t2 in tasks && t1.page == t2.page ==> t1 == t2
  }

  /** The page-store entries written by a set of finished tasks: each successful download at its own key. */
  function Settled(tasks: set<Task>, fetch: Fetcher): (saved: map<int, Record>)
    requires OwnKeys(tasks)
    ensures forall t :: t in tasks ==> (t.page in saved <==> fetch(Fingerprint(t.link)).Some?)
    ensures forall t :: t in tasks && t.page in saved ==> saved[t.page] == Page(fetch(Fingerprint(t.link)).value)
    ensures forall k :: k in saved ==> exists t :: t in tasks && t.page == k
  {
    map t | t in tasks && fetch(Fingerprint(t.link)).Some? :: t.page := Page(fetch(Fingerprint(t.link)).value)
  }

  /**
   * Two maps with the same keys and the same value at each key are equal.
   * Dafny knows this; stating it as a step keeps the map proofs below cheap.
   */
  lemma SameMaps<K, V>(left: map<K, V>, right: map<K, V>)
    requires forall k :: k in left <==> k in right
    requires forall k :: k in left ==> left[k] == right[k]
    ensures left == right
  {
  }

  /** A task whose page no other finished task shares has no entry yet. */
  lemma SettledFreshKey(done: set<Task>, task: Task, fetch: Fetcher)
    requires OwnKeys(done + {task}) && task !in done
    ensures OwnKeys(done)
    ensures task.page !in Settled(done, fetch)
  {
    forall t1, t2 | t1 in done && t2 in done && t1.page == t2.page
      ensures t1 == t2
    {
      assert t1 in done + {task} && t2 in done + {task};
    }
    forall t | t in done
      ensures t.page != task.page
    {
      assert t in done + {task};
    }
  }

  /** The entries of one more finished task, key by key. */
  lemma SettledOneAt(done: set<Task>, task: Task, fetch: Fetcher, k: int)
    requires OwnKeys(done + {task}) && task !in done
    ensures OwnKeys(done)
    ensures var after := Settled(done + {task}, fetch);
      var before := Settled(done, fetch);
      && (k in after <==> k in before || (k == task.page && fetch(Fingerprint(task.link)).Some?))
      && (k in after && k != task.page ==> k in before && after[k] == before[k])
  {
    SettledFreshKey(done, task, fetch);
    var after := Settled(done + {task}, fetch);
    var before := Settled(done, fetch);
    if k in after && k != task.page {
      var t :| t in done + {task} && t.page == k;
      assert t in done;
    }
    if k in before {
      var t :| t in done && t.page == k;
      assert t in done + {task};
    }
  }

  /** Finishing one more task adds its download, if any, at its own key. */
  lemma SettledOne(done: set<Task>, task: Task, fetch: Fetcher)
    requires OwnKeys(done + {task}) && task !in done
    ensures OwnKeys(done)
    ensures task.page !in Settled(done, fetch)
    ensures Settled(done + {task}, fetch) ==
      if fetch(Fingerprint(task.link)).Some?
      then Settled(done, fetch)[task.page := Page(fetch(Fingerprint(task.link)).value)]
      else Settled(done, fetch)
  {
    SettledFreshKey(done, task, fetch);
    var after := Settled(done + {task}, fetch);
    var expected :=
      if fetch(Fingerprint(task.link)).Some?
      then Settled(done, fetch)[task.page := Page(fetch(Fingerprint(task.link)).value)]
      else Settled(done, fetch);
    forall k
      ensures (k in after <==> k in expected) && (k in after ==> after[k] == expected[k])
    {
      SettledOneAt(done, task, fetch, k);
    }
    SameMaps(after, expected);
  }

  lemma SettledAdd(base: map<int, Record>, done: set<Task>, task: Task, fetch: Fetcher)
    requires OwnKeys(done + {task}) && task !in done
    ensures OwnKeys(done)
    ensures base + Settled(done + {task}, fetch) ==
      if fetch(Fingerprint(task.link)).Some?
      then (base + Settled(done, fetch))[task.page := Page(fetch(Fingerprint(task.link)).value)]
      else base + Settled(done, fetch)
  {
    SettledOne(done, task, fetch);
  }

  /** The page store after page 0 is written inline: the size record, then the page. */
  function Page0Written(data: map<int, Record>, links: seq<Link>, cid: string, fetch: Fetcher): map<int, Record>
    requires 0 < |links| && fetch(Fingerprint(links[0])).Some?
  {
    var bytes := fetch(Fingerprint(links[0])).value;
    data[FileSizeKey := FileSize(|bytes| * |links|, cid)][0 := Page(bytes)]
  }

  /** The freshly downloaded pages: every stale manifest page whose download succeeds. */
  function NewPages(links: seq<Link>, current: map<int, string>, fetch: Fetcher): map<int, Record>
  {
    map k | 0 <= k < |links| && !IsCurrent(links, current, k) && fetch(Fingerprint(links[k])).Some? ::
      Page(fetch(Fingerprint(links[k])).value)
  }

  /** The page store after a restore that got past page 0. */
  function RestoredData(data: map<int, Record>, links: seq<Link>, current: map<int, string>, cid: string, fetch: Fetcher): map<int, Record>
    requires !Page0Unavailable(links, current, fetch)
  {
    var sized :=
      if 0 < |links| && !IsCurrent(links, current, 0)
      then data[FileSizeKey := FileSize(|fetch(Fingerprint(links[0])).value| * |links|, cid)]
      else data;
    sized + NewPages(links, current, fetch)
  }

  /** Why a restore rejects. */
  datatype RestoreError =
    | BadReference(error: References.RefError)
    | LinksMissing
    | StoresNotOpen
    | PageUnavailable(page: int)
    | PagesUnavailable

  datatype RestoreOutcome = Completed | Failed(error: RestoreError)

  /**
   * How a restore over `links` ends: the metadata store must exist once there
   * is a link to look up, page 0 must download when stale, and every scheduled
   * save must download.
   */
  function RestoreOutcomeOf(storesOpen: bool, links: seq<Link>, current: map<int, string>, fetch: Fetcher): RestoreOutcome
  {
    if !storesOpen && 0 < |links| then Failed(StoresNotOpen)
    else if Page0Unavailable(links, current, fetch) then Failed(PageUnavailable(0))
    else if exists k :: 0 < k < |links| && !IsCurrent(links, current, k) && fetch(Fingerprint(links[k])).None?
    then Failed(PagesUnavailable)
    else Completed
  }

  /** Everything a restore leaves behind: its outcome, both stores and the loop's actions. */
  datatype Restored = Restored(outcome: RestoreOutcome, data: map<int, Record>, current: map<int, string>, trace: seq<Action>)

  /**
   * The effect of one restore over `links`: it stops untouched when the stores
   * are missing or page 0 cannot be downloaded; otherwise every page ends
   * current and every downloaded page is stored, whether or not some
   * scheduled save failed.
   */
  function RestoreEffect(storesOpen: bool, links: seq<Link>, data: map<int, Record>, current: map<int, string>, cid: string, fetch: Fetcher): (r: Restored)
    ensures r.outcome.Completed? <==>
      && (storesOpen || |links| == 0)
      && forall k :: 0 <= k < |links| && !IsCurrent(links, current, k) ==> fetch(Fingerprint(links[k])).Some?
    ensures r.outcome == Failed(StoresNotOpen) || r.outcome == Failed(PageUnavailable(0)) ==>
      r.data == data && r.current == current
    ensures r.outcome == Completed || r.outcome == Failed(PagesUnavailable) ==>
      && !Page0Unavailable(links, current, fetch)
      && r.current == Converge(links, current)
      && r.data == RestoredData(data, links, current, cid, fetch)
  {
    if !storesOpen && 0 < |links| then Restored(Failed(StoresNotOpen), data, current, [])
    else if Page0Unavailable(links, current, fetch) then Restored(Failed(PageUnavailable(0)), data, current, [FetchPage(0)])
    else
      Restored(RestoreOutcomeOf(storesOpen, links, current, fetch),
               RestoredData(data, links, current, cid, fetch),
               Converge(links, current),
               Actions(links, current, fetch, |links|))
  }

  /** Past page 0, a restore completes exactly when every scheduled save downloads. */
  lemma CompletedIffAllSaved(storesOpen: bool, links: seq<Link>, current: map<int, string>, fetch: Fetcher)
    requires storesOpen || |links| == 0
    requires !Page0Unavailable(links, current, fetch)
    ensures RestoreOutcomeOf(storesOpen, links, current, fetch) ==
      if forall t :: t in PendingTasks(links, current, |links|) ==> fetch(Fingerprint(t.link)).Some?
      then Completed else Failed(PagesUnavailable)
  {
    PendingTasksAre(links, current, |links|);
    if exists k :: 0 < k < |links| && !IsCurrent(links, current, k) && fetch(Fingerprint(links[k])).None? {
      var k :| 0 < k < |links| && !IsCurrent(links, current, k) && fetch(Fingerprint(links[k])).None?;
      assert Task(k, links[k]) in PendingTasks(links, current, |links|);
    }
  }

  /** Visiting a current page changes nothing. */
  lemma SkipStep(links: seq<Link>, current: map<int, string>, fetch: Fetcher, n: nat)
    requires n < |links| && IsCurrent(links, current, n)
    ensures Actions(links, current, fetch, n + 1) == Actions(links, current, fetch, n)
    ensures PendingTasks(links, current, n + 1) == PendingTasks(links, current, n)
    ensures ConvergedUpTo(links, current, n + 1) == ConvergedUpTo(links, current, n)
  {
    ConvergedUpToStep(links, current, n);
  }

  /** Visiting a stale non-zero page schedules its save and marks it. */
  lemma ScheduleStep(links: seq<Link>, current: map<int, string>, fetch: Fetcher, n: nat)
    requires 0 < n < |links| && !IsCurrent(links, current, n)
    ensures Actions(links, current, fetch, n + 1) ==
      Actions(links, current, fetch, n) + [Schedule(n), MarkCurrent(n, Fingerprint(links[n]))]
    ensures PendingTasks(links, current, n + 1) == PendingTasks(links, current, n) + [Task(n, links[n])]
    ensures ConvergedUpTo(links, current, n + 1) == ConvergedUpTo(links, current, n)[n := Fingerprint(links[n])]
  {
    ConvergedUpToStep(links, current, n);
  }

  /** Visiting a stale page 0 whose download succeeds. */
  lemma FirstPageStep(links: seq<Link>, current: map<int, string>, fetch: Fetcher)
    requires 0 < |links| && !IsCurrent(links, current, 0) && fetch(Fingerprint(links[0])).Some?
    ensures Actions(links, current, fetch, 1) ==
      [FetchPage(0), PutFileSize(|fetch(Fingerprint(links[0])).value| * |links|), FetchPage(0), PutPage(0),
       MarkCurrent(0, Fingerprint(links[0]))]
    ensures PendingTasks(links, current, 1) == []
    ensures ConvergedUpTo(links, current, 1) == ConvergedUpTo(links, current, 0)[0 := Fingerprint(links[0])]
  {
    ConvergedUpToStep(links, current, 0);
  }

  // ---------------------------------------------------------------------------
  // Properties of a restore
  // ---------------------------------------------------------------------------

  /** The scheduled tasks are exactly the stale non-zero pages, each with its own link. */
  lemma {:induction false} PendingTasksAre(links: seq<Link>, current: map<int, string>, n: nat)
    requires n <= |links|
    ensures forall t :: t in PendingTasks(links, current, n) <==>
      0 < t.page < n && !IsCurrent(links, current, t.page) && t.link == links[t.page]
  {
    if n > 0 {
      PendingTasksAre(links, current, n - 1);
    }
  }

  /** The scheduled tasks write pairwise distinct keys. */
  lemma PendingTasksOwnKeys(links: seq<Link>, current: map<int, string>, n: nat)
    requires n <= |links|
    ensures OwnKeys(set t | t in PendingTasks(links, current, n))
  {
    PendingTasksAre(links, current, n);
  }

  /** Skip rule: the loop does nothing for a current page; the only key outside the manifest it writes is -1. */
  lemma {:induction false} ActionsOnlyStalePages(links: seq<Link>, current: map<int, string>, fetch: Fetcher, n: nat)
    requires n <= |links|
    ensures forall a :: a in Actions(links, current, fetch, n) && !a.PutFileSize? ==>
      0 <= a.page < n && !IsCurrent(links, current, a.page)
    ensures forall a :: a in Actions(links, current, fetch, n) && a.PutFileSize? ==>
      0 < |links| && !IsCurrent(links, current, 0) && fetch(Fingerprint(links[0])).Some? &&
      a.size == |fetch(Fingerprint(links[0])).value| * |links|
  {
    if n > 0 {
      ActionsOnlyStalePages(links, current, fetch, n - 1);
      var prefix := Actions(links, current, fetch, n - 1);
      var step := PageActions(links, current, fetch, n - 1);
      assert Actions(links, current, fetch, n) == prefix + step;
      forall a | a in step
        ensures !a.PutFileSize? ==> a.page == n - 1 && !IsCurrent(links, current, n - 1)
        ensures a.PutFileSize? ==>
          n - 1 == 0 && !IsCurrent(links, current, 0) && fetch(Fingerprint(links[0])).Some? &&
          a.size == |fetch(Fingerprint(links[0])).value| * |links|
      {
      }
    }
  }

  /** The actions of page k appear among those of any longer prefix. */
  lemma {:induction false} PageActionsIn(links: seq<Link>, current: map<int, string>, fetch: Fetcher, k: nat, n: nat)
    requires k < n <= |links|
    ensures forall x :: x in PageActions(links, current, fetch, k) ==> x in Actions(links, current, fetch, n)
  {
    if n - 1 > k {
      PageActionsIn(links, current, fetch, k, n - 1);
    }
    assert Actions(links, current, fetch, n) == Actions(links, current, fetch, n - 1) + PageActions(links, current, fetch, n - 1);
  }

  /** Delta: every stale page is fetched (page 0, with its size record) or scheduled (the rest), and marked current. */
  lemma ActionsCoverStalePages(links: seq<Link>, current: map<int, string>, fetch: Fetcher, n: nat)
    requires n <= |links|
    requires !Page0Unavailable(links, current, fetch)
    ensures forall k :: 0 <= k < n && !IsCurrent(links, current, k) ==>
      (if k == 0 then FetchPage(0) else Schedule(k)) in Actions(links, current, fetch, n) &&
      MarkCurrent(k, Fingerprint(links[k])) in Actions(links, current, fetch, n)
    ensures 0 < n && !IsCurrent(links, current, 0) ==>
      PutFileSize(|fetch(Fingerprint(links[0])).value| * |links|) in Actions(links, current, fetch, n)
  {
    forall k | 0 <= k < n && !IsCurrent(links, current, k)
      ensures (if k == 0 then FetchPage(0) else Schedule(k)) in Actions(links, current, fetch, n)
      ensures MarkCurrent(k, Fingerprint(links[k])) in Actions(links, current, fetch, n)
    {
      PageActionsIn(links, current, fetch, k, n);
      var step := PageActions(links, current, fetch, k);
      if k == 0 {
        assert step[0] == FetchPage(0) && step[4] == MarkCurrent(0, Fingerprint(links[0]));
      } else {
        assert step[0] == Schedule(k) && step[1] == MarkCurrent(k, Fingerprint(links[k]));
      }
    }
    if 0 < n && !IsCurrent(links, current, 0) {
      PageActionsIn(links, current, fetch, 0, n);
      assert PageActions(links, current, fetch, 0)[1] == PutFileSize(|fetch(Fingerprint(links[0])).value| * |links|);
    }
  }

  /** The actions of one stale page, spelled out. */
  lemma StalePageActions(links: seq<Link>, current: map<int, string>, fetch: Fetcher, k: nat)
    requires k < |links| && !IsCurrent(links, current, k)
    ensures k > 0 ==> PageActions(links, current, fetch, k) == [Schedule(k), MarkCurrent(k, Fingerprint(links[k]))]
    ensures k == 0 ==> forall x :: x in PageActions(links, current, fetch, k) ==> !x.Schedule?
  {
  }

  /** The size record can only be the second action, right after the first download of page 0. */
  lemma {:induction false} FileSizeAtOne(links: seq<Link>, current: map<int, string>, fetch: Fetcher, n: nat)
    requires n <= |links|
    ensures forall i :: 0 <= i < |Actions(links, current, fetch, n)| && Actions(links, current, fetch, n)[i].PutFileSize? ==>
      i == 1 && Actions(links, current, fetch, n)[0] == FetchPage(0)
  {
    if n > 0 {
      FileSizeAtOne(links, current, fetch, n - 1);
      var a := Actions(links, current, fetch, n);
      var prefix := Actions(links, current, fetch, n - 1);
      var step := PageActions(links, current, fetch, n - 1);
      assert a == prefix + step;
      if n - 1 > 0 && !IsCurrent(links, current, n - 1) {
        StalePageActions(links, current, fetch, n - 1);
      }
      forall i | 0 <= i < |a| && a[i].PutFileSize?
        ensures i == 1 && a[0] == FetchPage(0)
      {
        if i < |prefix| {
          assert a[i] == prefix[i] && a[0] == prefix[0];
        } else {
          assert step[i - |prefix|].PutFileSize?;
        }
      }
    }
  }

  /** Page-0 precedence: the size record precedes the page-0 save and every scheduled save. */
  lemma FileSizeFirst(links: seq<Link>, current: map<int, string>, fetch: Fetcher, n: nat)
    requires n <= |links|
    ensures forall i, j ::
      (&& 0 <= i < |Actions(links, current, fetch, n)| && 0 <= j < |Actions(links, current, fetch, n)|
       && Actions(links, current, fetch, n)[i].PutFileSize?
       && (Actions(links, current, fetch, n)[j].PutPage? || Actions(links, current, fetch, n)[j].Schedule?))
      ==> i < j
  {
    FileSizeAtOne(links, current, fetch, n);
  }

  /** A non-zero page is marked current right when its save is scheduled, before its download. */
  lemma {:induction false} MarkedWhenScheduled(links: seq<Link>, current: map<int, string>, fetch: Fetcher, n: nat)
    requires n <= |links|
    ensures forall i :: 0 <= i < |Actions(links, current, fetch, n)| && Actions(links, current, fetch, n)[i].Schedule? ==>
      && 0 < Actions(links, current, fetch, n)[i].page < n
      && i + 1 < |Actions(links, current, fetch, n)|
      && Actions(links, current, fetch, n)[i + 1] ==
           MarkCurrent(Actions(links, current, fetch, n)[i].page, Fingerprint(links[Actions(links, current, fetch, n)[i].page]))
  {
    if n > 0 {
      MarkedWhenScheduled(links, current, fetch, n - 1);
      var a := Actions(links, current, fetch, n);
      var prefix := Actions(links, current, fetch, n - 1);
      var step := PageActions(links, current, fetch, n - 1);
      assert a == prefix + step;
      if !IsCurrent(links, current, n - 1) {
        StalePageActions(links, current, fetch, n - 1);
      }
      forall i | 0 <= i < |a| && a[i].Schedule?
        ensures 0 < a[i].page < n && i + 1 < |a| && a[i + 1] == MarkCurrent(a[i].page, Fingerprint(links[a[i].page]))
      {
        if i < |prefix| {
          assert prefix[i] == a[i];
          assert i + 1 < |prefix|;
          assert prefix[i + 1] == a[i + 1];
        } else {
          assert a[i] == step[i - |prefix|];
        }
      }
    }
  }

  /** Pages that are all current produce no action. */
  lemma {:induction false} NoActionsWhenCurrent(links: seq<Link>, current: map<int, string>, fetch: Fetcher, n: nat)
    requires n <= |links|
    requires forall k :: 0 <= k < n ==> IsCurrent(links, current, k)
    ensures Actions(links, current, fetch, n) == []
    ensures PendingTasks(links, current, n) == []
  {
    if n > 0 {
      NoActionsWhenCurrent(links, current, fetch, n - 1);
    }
  }

  /** After a restore every manifest page is current. */
  lemma ConvergedIsCurrent(links: seq<Link>, current: map<int, string>)
    ensures forall k :: 0 <= k < |links| ==> IsCurrent(links, Converge(links, current), k)
    ensures Converge(links, Converge(links, current)) == Converge(links, current)
  {
  }

  /** Nothing is left to download or to fail once every manifest page is current. */
  lemma NothingStaleAfterConverge(links: seq<Link>, current: map<int, string>, fetch: Fetcher)
    ensures NewPages(links, Converge(links, current), fetch) == map[]
    ensures !Page0Unavailable(links, Converge(links, current), fetch)
    ensures RestoreOutcomeOf(true, links, Converge(links, current), fetch) == Completed
  {
    ConvergedIsCurrent(links, current);
  }

  /**
   * Idempotence: once a restore has converged the current pages, a second
   * restore with the same links fetches, schedules and writes nothing.
   */
  lemma RestoreTwiceIsNoOp(data: map<int, Record>, links: seq<Link>, current: map<int, string>, cid: string, fetch: Fetcher)
    ensures var again := Converge(links, current);
      && Actions(links, again, fetch, |links|) == []
      && PendingTasks(links, again, |links|) == []
      && !Page0Unavailable(links, again, fetch)
      && RestoredData(data, links, again, cid, fetch) == data
      && RestoreOutcomeOf(true, links, again, fetch) == Completed
  {
    var again := Converge(links, current);
    ConvergedIsCurrent(links, current);
    NoActionsWhenCurrent(links, again, fetch, |links|);
    NothingStaleAfterConverge(links, current, fetch);
  }

  /**
   * Delta only: after converging on manifest `before`, a manifest that differs
   * only at page k makes exactly page k stale, so only k is fetched or scheduled.
   */
  lemma DeltaOnly(before: seq<Link>, after: seq<Link>, current: map<int, string>, fetch: Fetcher, k: nat)
    requires |before| == |after| && k < |after|
    requires forall i :: 0 <= i < |after| && i != k ==> Fingerprint(before[i]) == Fingerprint(after[i])
    requires Fingerprint(before[k]) != Fingerprint(after[k])
    ensures var synced := Converge(before, current);
      forall j :: 0 <= j < |after| ==> (IsCurrent(after, synced, j) <==> j != k)
    ensures var synced := Converge(before, current);
      !Page0Unavailable(after, synced, fetch) ==>
      forall j :: 0 <= j < |after| ==>
        ((FetchPage(j) in Actions(after, synced, fetch, |after|) || Schedule(j) in Actions(after, synced, fetch, |after|)) <==> j == k)
  {
    var synced := Converge(before, current);
    ActionsOnlyStalePages(after, synced, fetch, |after|);
    if !Page0Unavailable(after, synced, fetch) {
      ActionsCoverStalePages(after, synced, fetch, |after|);
    }
  }

  /** The page store, key by key, after a restore that got past page 0. */
  lemma RestoredDataAt(data: map<int, Record>, links: seq<Link>, current: map<int, string>, cid: string, fetch: Fetcher, k: int)
    requires !Page0Unavailable(links, current, fetch)
    ensures var r := RestoredData(data, links, current, cid, fetch);
      if k == FileSizeKey && 0 < |links| && !IsCurrent(links, current, 0) then
        k in r && r[k] == FileSize(|fetch(Fingerprint(links[0])).value| * |links|, cid)
      else if 0 <= k < |links| && !IsCurrent(links, current, k) && fetch(Fingerprint(links[k])).Some? then
        k in r && r[k] == Page(fetch(Fingerprint(links[k])).value)
      else
        (k in r <==> k in data) && (k in r ==> r[k] == data[k])
  {
  }

  /** A key saved by one of the scheduled tasks is a stale non-zero page that downloaded. */
  lemma SettledPendingAt(links: seq<Link>, current: map<int, string>, fetch: Fetcher, k: int)
    requires OwnKeys(ScheduledSet(links, current))
    ensures var saved := Settled(ScheduledSet(links, current), fetch);
      k in saved <==> 0 < k < |links| && !IsCurrent(links, current, k) && fetch(Fingerprint(links[k])).Some?
    ensures var saved := Settled(ScheduledSet(links, current), fetch);
      k in saved ==> saved[k] == Page(fetch(Fingerprint(links[k])).value)
  {
    PendingTasksAre(links, current, |links|);
    var tasks := ScheduledSet(links, current);
    var saved := Settled(tasks, fetch);
    if k in saved {
      var t :| t in tasks && t.page == k;
      assert t == Task(k, links[k]);
    }
    if 0 < k < |links| && !IsCurrent(links, current, k) && fetch(Fingerprint(links[k])).Some? {
      assert Task(k, links[k]) in tasks;
    }
  }

  /** The page store after the inline page-0 write. */
  function Inline(data: map<int, Record>, links: seq<Link>, current: map<int, string>, cid: string, fetch: Fetcher): map<int, Record>
    requires !Page0Unavailable(links, current, fetch)
  {
    if 0 < |links| && !IsCurrent(links, current, 0) then Page0Written(data, links, cid, fetch) else data
  }

  lemma SettleRestoreAt(data: map<int, Record>, links: seq<Link>, current: map<int, string>, cid: string, fetch: Fetcher, k: int)
    requires !Page0Unavailable(links, current, fetch)
    requires OwnKeys(ScheduledSet(links, current))
    ensures var left := Inline(data, links, current, cid, fetch) + Settled(ScheduledSet(links, current), fetch);
      var right := RestoredData(data, links, current, cid, fetch);
      (k in left <==> k in right) && (k in left ==> left[k] == right[k])
  {
    SettledPendingAt(links, current, fetch, k);
    RestoredDataAt(data, links, current, cid, fetch, k);
  }

  /**
   * The partner of the lemma above: the page store after the inline page-0
   * write plus every settled task is the restored page store.
   */
  lemma SettleRestore(data: map<int, Record>, links: seq<Link>, current: map<int, string>, cid: string, fetch: Fetcher)
    requires !Page0Unavailable(links, current, fetch)
    ensures OwnKeys(ScheduledSet(links, current))
    ensures Inline(data, links, current, cid, fetch) + Settled(ScheduledSet(links, current), fetch) ==
      RestoredData(data, links, current, cid, fetch)
  {
    PendingTasksOwnKeys(links, current, |links|);
    var left := Inline(data, links, current, cid, fetch) + Settled(ScheduledSet(links, current), fetch);
    var right := RestoredData(data, links, current, cid, fetch);
    forall k
      ensures (k in left <==> k in right) && (k in left ==> left[k] == right[k])
    {
      SettleRestoreAt(data, links, current, cid, fetch, k);
    }
    SameMaps(left, right);
  }

  /**
   * A non-zero page is marked current when its save is scheduled; if that
   * download fails, the page keeps its old bytes, yet stays marked current, so
   * a later restore of the same links never fetches it again.
   */
  lemma FailedPageStaysStale(data: map<int, Record>, links: seq<Link>, current: map<int, string>, cid: string, fetch: Fetcher, later: Fetcher, k: nat)
    requires 0 < k < |links| && !IsCurrent(links, current, k)
    requires fetch(Fingerprint(links[k])).None?
    requires !Page0Unavailable(links, current, fetch)
    ensures RestoreOutcomeOf(true, links, current, fetch) == Failed(PagesUnavailable)
    ensures var first := RestoredData(data, links, current, cid, fetch);
      && (k in first <==> k in data) && (k in first ==> first[k] == data[k])
      && IsCurrent(links, Converge(links, current), k)
      && RestoredData(first, links, Converge(links, current), cid, later) == first
  {
    RestoredDataAt(data, links, current, cid, fetch, k);
    RestoreTwiceIsNoOp(RestoredData(data, links, current, cid, fetch), links, current, cid, later);
  }

  /**
   * The two-run scenario: pages f0, f1, f2 restored from scratch, then the
   * manifest f0, f1, f3, which fetches page 2 alone.
   */
  lemma ThreePageScenario(fetch: Fetcher, cid: string)
    requires forall fp :: fetch(fp).Some?
    ensures var first := [Link(Some("f0"), ""), Link(Some("f1"), ""), Link(Some("f2"), "")];
      var second := [Link(Some("f0"), ""), Link(Some("f1"), ""), Link(Some("f3"), "")];
      var synced := Converge(first, map[]);
      && Actions(first, map[], fetch, 3) ==
           [FetchPage(0), PutFileSize(|fetch("f0").value| * 3), FetchPage(0), PutPage(0), MarkCurrent(0, "f0"),
            Schedule(1), MarkCurrent(1, "f1"), Schedule(2), MarkCurrent(2, "f2")]
      && synced == map[0 := "f0", 1 := "f1", 2 := "f2"]
      && Actions(second, synced, fetch, 3) == [Schedule(2), MarkCurrent(2, "f3")]
  {
    var first := [Link(Some("f0"), ""), Link(Some("f1"), ""), Link(Some("f2"), "")];
    var second := [Link(Some("f0"), ""), Link(Some("f1"), ""), Link(Some("f3"), "")];
    var synced := Converge(first, map[]);
    assert synced == map[0 := "f0", 1 := "f1", 2 := "f2"];
    assert fetch("f0").Some?;
    assert IsCurrent(second, synced, 0) && IsCurrent(second, synced, 1) && !IsCurrent(second, synced, 2);
  }
}
