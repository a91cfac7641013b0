/**
 * The `IPFSSQLiteDB` object: its configuration id, the loaded configuration,
 * the two local stores (page data, and current page fingerprints) as maps,
 * the running snapshot id and the count of failed configuration fetches.
 *
 * Network calls are the function parameters `resolve`, `getIndex`,
 * `getManifest` and `fetch`; the clock is the parameter `nowMs`.
 */
module Database {
  import opened Wrappers
  import opened References
  import opened Pages
  import opened Configuration
  import opened Watching

  class IpfsSqliteDb {
    /** The reference given to the constructor; also written into the size record. */
    const configurationCid: string
    var configuration: Option<DatabaseConfiguration>
    /** Names of the page database and the metadata database, once opened. */
    var dataStore: Option<string>
    var metadataStore: Option<string>
    /** The `data` table of the page database: page number to bytes, -1 to the size record. */
    var data: map<int, Record>
    /** The `currentPages` table: page number to the fingerprint last applied. */
    var currentPages: map<int, string>
    var runningCid: Option<string>
    var ipfsErrorCount: nat

    /** The two databases are opened together. */
    ghost predicate Valid()
      reads this
    {
      dataStore.Some? <==> metadataStore.Some?
    }

    /** `storedData` and `storedPages` are what the browser's databases already hold. */
    constructor (configurationCid: string, storedData: map<int, Record>, storedPages: map<int, string>)
      ensures Valid()
      ensures this.configurationCid == configurationCid
      ensures configuration.None? && dataStore.None? && metadataStore.None?
      ensures data == storedData && currentPages == storedPages
      ensures runningCid.None? && ipfsErrorCount == 0
    {
      this.configurationCid := configurationCid;
      configuration := None;
      dataStore, metadataStore := None, None;
      data, currentPages := storedData, storedPages;
      runningCid := None;
      ipfsErrorCount := 0;
    }

    /**
     * What a refresh ending in `load` does to the object: a failed fetch adds
     * one to the error count; a loaded configuration is stored, and each
     * database still unopened is opened under the version index's name.
     */
    twostate predicate RefreshedBy(load: Load)
      reads this
    {
      && ipfsErrorCount == old(ipfsErrorCount) + (if load.Unavailable? then 1 else 0)
      && configuration == (if load.Loaded? then Some(load.configuration) else old(configuration))
      && dataStore ==
           (if load.Loaded? && old(dataStore).None? then Some(load.configuration.data.name + ".sqlite3") else old(dataStore))
      && metadataStore ==
           (if load.Loaded? && old(metadataStore).None? then Some(load.configuration.data.name + ".sqlite3-metadata")
            else old(metadataStore))
    }

    /** No refresh ran: the configuration, the store names and the error count are as they were. */
    twostate predicate NotRefreshed()
      reads this
    {
      && configuration == old(configuration) && dataStore == old(dataStore) && metadataStore == old(metadataStore)
      && ipfsErrorCount == old(ipfsErrorCount)
    }

    /**
     * `#refreshDatabaseConfiguration`: a reference error escapes untouched; a
     * failed fetch bumps the error count by one and yields `false`; success
     * stores the configuration and opens, only while still unopened, the two
     * databases named after the version index.
     */
    method Refresh(ref: string, nowMs: nat, resolve: Resolver, getIndex: IndexFetcher, getManifest: ManifestFetcher)
      returns (r: Load)
      requires Valid()
      modifies this`configuration, this`dataStore, this`metadataStore, this`ipfsErrorCount
      ensures Valid()
      ensures r == LoadConfiguration(ref, nowMs, resolve, getIndex, getManifest)
      ensures RefreshedBy(r)
    {
      var id := ConfigurationId(ref, nowMs, resolve);
      if id.Err? {
        return Threw(id.error);
      }
      var index := getIndex(id.value);
      if index.None? {
        ipfsErrorCount := ipfsErrorCount + 1;
        return Unavailable;
      }
      var manifest := getManifest(index.value.current);
      if manifest.None? {
        ipfsErrorCount := ipfsErrorCount + 1;
        return Unavailable;
      }
      var loaded := DatabaseConfiguration(manifest.value.links, index.value);
      configuration := Some(loaded);
      if dataStore.None? {
        dataStore := Some(loaded.data.name + ".sqlite3");
      }
      if metadataStore.None? {
        metadataStore := Some(loaded.data.name + ".sqlite3-metadata");
      }
      r := Loaded(loaded);
    }

    /** `#savePageToDB`: download the page by its link's fingerprint and store it under its own number. */
    method SavePage(pageNumber: int, link: Link, fetch: Fetcher) returns (saved: bool)
      requires dataStore.Some?
      modifies this`data
      ensures saved <==> fetch(Fingerprint(link)).Some?
      ensures data == if saved then old(data)[pageNumber := Page(fetch(Fingerprint(link)).value)] else old(data)
    {
      var pageData := fetch(Fingerprint(link));
      if pageData.None? {
        return false;
      }
      data := data[pageNumber := Page(pageData.value)];
      saved := true;
    }

    /**
     * `Promise.all` over the scheduled saves. The limiter may finish them in
     * any order; each writes only its own key, so every order ends alike.
     */
    method AwaitAll(tasks: seq<Task>, fetch: Fetcher) returns (allSaved: bool)
      requires tasks != [] ==> dataStore.Some?
      requires OwnKeys(TaskSet(tasks))
      modifies this`data
      ensures data == old(data) + Settled(TaskSet(tasks), fetch)
      ensures allSaved <==> forall t :: t in tasks ==> fetch(Fingerprint(t.link)).Some?
    {
      var pending := TaskSet(tasks);
      ghost var done: set<Task> := {};
      allSaved := true;
      while pending != {}
        invariant done + pending == TaskSet(tasks)
        invariant done !! pending
        invariant data == old(data) + Settled(done, fetch)
        invariant allSaved <==> forall t :: t in done ==> fetch(Fingerprint(t.link)).Some?
        decreases pending
      {
        var task :| task in pending;
        var saved := SavePage(task.page, task.link, fetch);
        SettledAdd(old(data), done, task, fetch);
        allSaved := allSaved && saved;
        pending := pending - {task};
        done := done + {task};
      }
    }

    /**
     * The inline page-0 branch of `restore`: download page 0, store the
     * file-size record (page length times page count, with the constructor's
     * id), then save page 0 through `#savePageToDB`.
     */
    method RestoreFirstPage(links: seq<Link>, fetch: Fetcher) returns (fetched: bool, actions: seq<Action>)
      requires 0 < |links| && dataStore.Some?
      modifies this`data
      ensures fetched <==> fetch(Fingerprint(links[0])).Some?
      ensures data == if fetched then Page0Written(old(data), links, configurationCid, fetch) else old(data)
      ensures !fetched ==> actions == [FetchPage(0)]
      ensures fetched ==> (actions ==
        [FetchPage(0), PutFileSize(|fetch(Fingerprint(links[0])).value| * |links|), FetchPage(0), PutPage(0)])
    {
      var linkString := Fingerprint(links[0]);
      var pageData := fetch(linkString);
      actions := [FetchPage(0)];
      if pageData.None? {
        return false, actions;
      }
      var size := |pageData.value| * |links|;
      data := data[FileSizeKey := FileSize(size, configurationCid)];
      actions := actions + [PutFileSize(size)];
      var saved := SavePage(0, links[0], fetch);
      actions := actions + [FetchPage(0), PutPage(0)];
      fetched := true;
    }

    /**
     * The state after the loop has visited pages 0 .. n-1, starting from the
     * stores `data0` and `current0`: the actions so far, the scheduled saves,
     * the marked fingerprints and the inline page-0 writes.
     */
    ghost predicate Visited(links: seq<Link>, fetch: Fetcher, data0: map<int, Record>, current0: map<int, string>,
                            n: nat, scheduled: seq<Task>, trace: seq<Action>)
      reads this
    {
      && n <= |links|
      && (0 < n ==> !Page0Unavailable(links, current0, fetch))
      && trace == Actions(links, current0, fetch, n)
      && scheduled == PendingTasks(links, current0, n)
      && currentPages == ConvergedUpTo(links, current0, n)
      && data == (if 0 < n && !IsCurrent(links, current0, 0) then Page0Written(data0, links, configurationCid, fetch) else data0)
    }

    /**
     * One pass of the page loop: skip a page whose stored fingerprint matches,
     * handle a stale page 0 inline (a failed download ends the loop), schedule
     * any other stale page, and mark a stale page current.
     */
    method VisitPage(links: seq<Link>, fetch: Fetcher, ghost data0: map<int, Record>, ghost current0: map<int, string>,
                     pageNumber: nat, scheduled: seq<Task>, trace: seq<Action>)
      returns (page0Failed: bool, scheduled': seq<Task>, trace': seq<Action>)
      requires pageNumber < |links| && dataStore.Some?
      requires Visited(links, fetch, data0, current0, pageNumber, scheduled, trace)
      modifies this`data, this`currentPages
      ensures page0Failed ==>
        && pageNumber == 0 && Page0Unavailable(links, current0, fetch)
        && data == old(data) && currentPages == old(currentPages) && trace' == [FetchPage(0)]
      ensures !page0Failed ==> Visited(links, fetch, data0, current0, pageNumber + 1, scheduled', trace')
    {
      var link := links[pageNumber];
      var linkString := Fingerprint(link);
      var existingLinkString := if pageNumber in currentPages then Some(currentPages[pageNumber]) else None;
      ConvergedUpToStep(links, current0, pageNumber);
      if existingLinkString == Some(linkString) {
        SkipStep(links, current0, fetch, pageNumber);
        return false, scheduled, trace;
      }
      if pageNumber == 0 {
        var fetched, actions := RestoreFirstPage(links, fetch);
        if !fetched {
          return true, scheduled, actions;
        }
        FirstPageStep(links, current0, fetch);
        scheduled', trace' := scheduled, actions + [MarkCurrent(0, linkString)];
      } else {
        ScheduleStep(links, current0, fetch, pageNumber);
        scheduled', trace' := scheduled + [Task(pageNumber, link)], trace + [Schedule(pageNumber), MarkCurrent(pageNumber, linkString)];
      }
      currentPages := currentPages[pageNumber := linkString];
      page0Failed := false;
    }

    /** The page loop of `restore`, page by page in manifest order. */
    method VisitPages(links: seq<Link>, fetch: Fetcher) returns (page0Failed: bool, scheduled: seq<Task>, trace: seq<Action>)
      requires 0 < |links| ==> dataStore.Some?
      modifies this`data, this`currentPages
      ensures page0Failed == Page0Unavailable(links, old(currentPages), fetch)
      ensures page0Failed ==> data == old(data) && currentPages == old(currentPages) && trace == [FetchPage(0)]
      ensures !page0Failed ==>
        && trace == Actions(links, old(currentPages), fetch, |links|)
        && scheduled == PendingTasks(links, old(currentPages), |links|)
        && currentPages == Converge(links, old(currentPages))
        && data == Inline(old(data), links, old(currentPages), configurationCid, fetch)
    {
      trace := [];
      scheduled := [];
      page0Failed := false;
      var pageNumber := 0;
      while pageNumber < |links|
        invariant pageNumber <= |links|
        invariant Visited(links, fetch, old(data), old(currentPages), pageNumber, scheduled, trace)
      {
        page0Failed, scheduled, trace := VisitPage(links, fetch, old(data), old(currentPages), pageNumber, scheduled, trace);
        if page0Failed {
          return;
        }
        pageNumber := pageNumber + 1;
      }
    }

    /**
     * `restore` over a manifest's links: the page loop, then `Promise.all`
     * over the scheduled saves. Without the metadata database the first
     * lookup throws.
     */
    method RestorePages(links: seq<Link>, fetch: Fetcher) returns (outcome: RestoreOutcome, trace: seq<Action>)
      requires Valid()
      modifies this`data, this`currentPages
      ensures Restored(outcome, data, currentPages, trace) ==
        RestoreEffect(metadataStore.Some?, links, old(data), old(currentPages), configurationCid, fetch)
    {
      if metadataStore.None? && 0 < |links| {
        return Failed(StoresNotOpen), [];
      }
      var page0Failed, pageRestoresInProgress;
      page0Failed, pageRestoresInProgress, trace := VisitPages(links, fetch);
      if page0Failed {
        return Failed(PageUnavailable(0)), trace;
      }
      SettleRestore(old(data), links, old(currentPages), configurationCid, fetch);
      CompletedIffAllSaved(metadataStore.Some?, links, old(currentPages), fetch);
      var allSaved := AwaitAll(pageRestoresInProgress, fetch);
      outcome := if allSaved then Completed else Failed(PagesUnavailable);
    }

    /** `restore(configuration)`: iterating a configuration without links throws before anything happens. */
    method Restore(config: DatabaseConfiguration, fetch: Fetcher) returns (outcome: RestoreOutcome, trace: seq<Action>)
      requires Valid()
      modifies this`data, this`currentPages
      ensures config.links.None? ==>
        outcome == Failed(LinksMissing) && trace == [] && data == old(data) && currentPages == old(currentPages)
      ensures config.links.Some? ==>
        Restored(outcome, data, currentPages, trace) ==
        RestoreEffect(metadataStore.Some?, config.links.value, old(data), old(currentPages), configurationCid, fetch)
    {
      if config.links.None? {
        return Failed(LinksMissing), [];
      }
      outcome, trace := RestorePages(config.links.value, fetch);
    }

    /**
     * `restore()` with no argument: refresh from the constructor's reference
     * first. A reference error escapes; a failed fetch makes the refresh
     * return `false`, whose missing links end the restore before any page.
     */
    method RestoreLatest(nowMs: nat, resolve: Resolver, getIndex: IndexFetcher, getManifest: ManifestFetcher, fetch: Fetcher)
      returns (outcome: RestoreOutcome, trace: seq<Action>)
      requires Valid()
      modifies this`configuration, this`dataStore, this`metadataStore, this`ipfsErrorCount, this`data, this`currentPages
      ensures Valid()
      ensures var load := LoadConfiguration(configurationCid, nowMs, resolve, getIndex, getManifest);
        && RefreshedBy(load)
        && (load.Threw? ==> outcome == Failed(BadReference(load.error)))
        && (load.Unavailable? || (load.Loaded? && load.configuration.links.None?) ==> outcome == Failed(LinksMissing))
        && (!load.Loaded? || load.configuration.links.None? ==>
              trace == [] && data == old(data) && currentPages == old(currentPages))
        && (load.Loaded? && load.configuration.links.Some? ==>
              Restored(outcome, data, currentPages, trace) ==
              RestoreEffect(true, load.configuration.links.value, old(data), old(currentPages), configurationCid, fetch))
    {
      var load := Refresh(configurationCid, nowMs, resolve, getIndex, getManifest);
      match load
      case Threw(e) =>
        outcome, trace := Failed(BadReference(e)), [];
      case Unavailable =>
        outcome, trace := Failed(LinksMissing), [];
      case Loaded(config) =>
        outcome, trace := Restore(config, fetch);
    }

    /**
     * One tick of `watch`: resolve the key; when the path differs from the
     * running one, refresh from that path and restore, and adopt the path
     * only when both succeed. Every failure is caught inside the tick.
     */
    method WatchTick(ipnsKey: string, nowMs: nat, resolve: Resolver, getIndex: IndexFetcher, getManifest: ManifestFetcher, fetch: Fetcher)
      returns (result: TickResult)
      requires Valid()
      modifies this`configuration, this`dataStore, this`metadataStore, this`ipfsErrorCount, this`data, this`currentPages, this`runningCid
      ensures Valid()
      ensures var resolved := ResolvePath(ipnsKey, nowMs, resolve);
        var load := if resolved.Some? then LoadConfiguration(resolved.value, nowMs, resolve, getIndex, getManifest) else Unavailable;
        var restored := load.Loaded? && load.configuration.links.Some?
          && RestoreOutcomeOf(true, load.configuration.links.value, old(currentPages), fetch) == Completed;
        && (result, runningCid) == Tick(old(runningCid), resolved, load.Loaded?, restored)
        && (StartsRestore(old(runningCid), resolved, load.Loaded?) && load.configuration.links.Some? ==>
              var effect := RestoreEffect(true, load.configuration.links.value, old(data), old(currentPages), configurationCid, fetch);
              data == effect.data && currentPages == effect.current)
        && (!StartsRestore(old(runningCid), resolved, load.Loaded?) ==> data == old(data) && currentPages == old(currentPages))
        && (StartsRestore(old(runningCid), resolved, load.Loaded?) && load.configuration.links.None? ==>
              data == old(data) && currentPages == old(currentPages))
      ensures var resolved := ResolvePath(ipnsKey, nowMs, resolve);
        if resolved.Some? && resolved != old(runningCid)
        then RefreshedBy(LoadConfiguration(resolved.value, nowMs, resolve, getIndex, getManifest))
        else NotRefreshed()
      ensures result == ResolveFailed || result == UpToDate ==> NotRefreshed()
    {
      var resolved := ResolvePath(ipnsKey, nowMs, resolve);
      if resolved.None? {
        return ResolveFailed;
      }
      var currentCid := resolved.value;
      if runningCid == Some(currentCid) {
        return UpToDate;
      }
      var load := Refresh(currentCid, nowMs, resolve, getIndex, getManifest);
      if !load.Loaded? {
        return RefreshFailed;
      }
      var outcome, trace := Restore(load.configuration, fetch);
      if outcome != Completed {
        return RestoreFailed;
      }
      runningCid := Some(currentCid);
      result := Synchronized;
    }
  }
}
