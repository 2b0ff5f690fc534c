/** authManager's synchronisation logic: the enabled flag and its timers,
    the 10 s debounce, the auto-save step (throttle, sha-change detection,
    merge, the PUT request and its outcome), conflict handling, and the
    merge loops that change the shared document in place. Every GitHub
    response is an input; the request is an output. */
module AuthManager {
  import opened Util
  import opened Tree
  import SyncMerge

  /** Minimum time between successful auto-saves, in ms. */
  const SaveFloor := 30000
  /** scheduleAutoSave's debounce delay, in ms. */
  const DebounceDelay := 10000
  /** enableAutoSave's interval, in ms (2 * 60 * 1000). */
  const AutoSavePeriod := 120000

  /** The decoded body of tech-data.json: `Unreadable` when atob or
      JSON.parse throws; otherwise its `categories`, None when the parsed
      value has none. */
  datatype RemoteFile = Unreadable | Decoded(categories: Option<seq<Node>>)

  /** A GET of the contents endpoint: the fetch threw, or a status with the
      body's `sha` and decoded content (meaningful for status 200). */
  datatype GetResult = FetchFailed | Response(status: int, sha: Option<string>, file: RemoteFile)

  /** A PUT of the contents endpoint: the fetch threw, or a status. */
  datatype PutResult = PutFailed | PutStatus(status: int)

  /** The body auto-save sends: the document and, when the file exists, its sha. */
  datatype PutRequest = PutRequest(content: seq<Node>, sha: Option<string>)

  /** `this.lastSaveTime && (now - this.lastSaveTime) < 30000` */
  predicate Throttled(lastSaveTime: Option<int>, now: int) {
    lastSaveTime.Some? && lastSaveTime.value != 0 && now - lastSaveTime.value < SaveFloor
  }

  /** `this.lastKnownRemoteSha && currentRemoteSha !== this.lastKnownRemoteSha` */
  predicate MergeNeeded(lastKnown: Option<string>, fetched: Option<string>) {
    Truthy(lastKnown) && fetched != lastKnown
  }

  /** What loadFromGitHubWithMerge needs to merge: credentials and a 200
      response whose content decodes. */
  predicate Reloadable(hasCredentials: bool, response: GetResult) {
    hasCredentials && response.Response? && response.status == 200 && response.file.Decoded?
  }

  /** Outcome of auto-save's read phase (the inner try block). */
  datatype Prepared =
    | Abort(doc: seq<Node>)                                            // returned before the PUT
    | Write(doc: seq<Node>, knownSha: Option<string>, request: PutRequest)

  /** The read phase as a function of the document, the last observed sha
      and the GET result: what the document becomes, what sha is recorded,
      and the request that follows, if any. */
  function PrepareWrite(local: seq<Node>, lastKnown: Option<string>, get: GetResult): Prepared {
    match get
    case FetchFailed => Abort(local)
    case Response(status, sha, file) =>
      if status != 200 then Write(local, lastKnown, PutRequest(local, None))
      else if !MergeNeeded(lastKnown, sha) then Write(local, sha, PutRequest(local, if Truthy(sha) then sha else None))
      else match file
        case Unreadable => Abort(local)
        case Decoded(categories) =>
          var (merged, ok) := SyncMerge.MergeData(local, categories);
          if ok then Write(merged, sha, PutRequest(merged, if Truthy(sha) then sha else None))
          else Abort(merged)
  }

  /** authManager's fields, with the timers and listener the browser holds for it. */
  class AuthManager {
    const doc: TechData
    var autoSaveEnabled: bool
    var autoSaveInterval: Option<nat>
    var lastSaveTime: Option<int>
    var autoSaveTimeout: Option<nat>
    var lastKnownRemoteSha: Option<string>
    var lastSyncTime: Option<int>
    /** Armed timeouts and intervals, id to delay; ids are positive and never reused. */
    var timeouts: map<nat, int>
    var intervals: map<nat, int>
    var nextTimerId: nat
    /** beforeunload listeners registered on the window. */
    var beforeUnloadListeners: nat

    /** Every armed timer is the one this object last stored: the interval
        exists exactly while auto-save is enabled. */
    predicate Valid()
      reads this
    {
      nextTimerId >= 1 &&
      (autoSaveTimeout.Some? ==> 1 <= autoSaveTimeout.value < nextTimerId) &&
      (forall id :: id in timeouts ==> autoSaveTimeout == Some(id)) &&
      (autoSaveEnabled <==> autoSaveInterval.Some?) &&
      (autoSaveInterval.Some? ==> 1 <= autoSaveInterval.value < nextTimerId &&
                                  intervals == map[autoSaveInterval.value := AutoSavePeriod]) &&
      (autoSaveInterval.None? ==> intervals == map[])
    }

    constructor (doc: TechData)
      ensures Valid() && this.doc == doc
      ensures !autoSaveEnabled && autoSaveTimeout.None? && lastSaveTime.None? && lastKnownRemoteSha.None?
      ensures lastSyncTime.None? && timeouts == map[] && beforeUnloadListeners == 0
    {
      this.doc := doc;
      autoSaveEnabled := false;
      autoSaveInterval := None;
      lastSaveTime := None;
      autoSaveTimeout := None;
      lastKnownRemoteSha := None;
      lastSyncTime := None;
      timeouts := map[];
      intervals := map[];
      nextTimerId := 1;
      beforeUnloadListeners := 0;
    }

    /** enableAutoSave: idempotent; otherwise arms the 2-minute interval and
        adds a beforeunload listener. */
    method EnableAutoSave()
      requires Valid()
      modifies this
      ensures Valid() && autoSaveEnabled
      ensures old(autoSaveEnabled) ==> unchanged(this)
      ensures !old(autoSaveEnabled) ==>
                autoSaveInterval == Some(old(nextTimerId)) &&
                intervals == map[old(nextTimerId) := AutoSavePeriod] &&
                beforeUnloadListeners == old(beforeUnloadListeners) + 1 &&
                nextTimerId == old(nextTimerId) + 1 &&
                timeouts == old(timeouts) && autoSaveTimeout == old(autoSaveTimeout) &&
                lastSaveTime == old(lastSaveTime) && lastKnownRemoteSha == old(lastKnownRemoteSha) &&
                lastSyncTime == old(lastSyncTime)
    {
      if autoSaveEnabled {
        return;
      }
      autoSaveEnabled := true;
      var id := nextTimerId;
      nextTimerId := nextTimerId + 1;
      intervals := intervals[id := AutoSavePeriod];
      autoSaveInterval := Some(id);
      beforeUnloadListeners := beforeUnloadListeners + 1;
    }

    /** disableAutoSave: clears the interval. removeEventListener is handed a
        freshly bound function, so the beforeunload listener stays; a pending
        debounce timeout is not cancelled either. */
    method DisableAutoSave()
      requires Valid()
      modifies this
      ensures Valid() && !autoSaveEnabled
      ensures autoSaveInterval.None? && intervals == map[]
      ensures beforeUnloadListeners == old(beforeUnloadListeners)
      ensures timeouts == old(timeouts) && autoSaveTimeout == old(autoSaveTimeout)
      ensures nextTimerId == old(nextTimerId)
      ensures lastSaveTime == old(lastSaveTime) && lastKnownRemoteSha == old(lastKnownRemoteSha)
      ensures lastSyncTime == old(lastSyncTime)
    {
      if autoSaveInterval.Some? {
        intervals := intervals - {autoSaveInterval.value};
        autoSaveInterval := None;
      }
      autoSaveEnabled := false;
    }

    /** toggleAutoSave */
    method ToggleAutoSave()
      requires Valid()
      modifies this
      ensures Valid() && autoSaveEnabled == !old(autoSaveEnabled)
    {
      if autoSaveEnabled {
        DisableAutoSave();
      } else {
        EnableAutoSave();
      }
    }

    /** scheduleAutoSave: a no-op while disabled; otherwise cancels the
        pending timeout and arms a fresh 10 s one, which is then the only
        armed timeout. */
    method ScheduleAutoSave()
      requires Valid()
      modifies this
      ensures Valid()
      ensures !old(autoSaveEnabled) ==> unchanged(this)
      ensures old(autoSaveEnabled) ==>
                autoSaveTimeout == Some(old(nextTimerId)) &&
                timeouts == map[old(nextTimerId) := DebounceDelay] &&
                nextTimerId == old(nextTimerId) + 1
      ensures autoSaveEnabled == old(autoSaveEnabled) && intervals == old(intervals)
      ensures autoSaveInterval == old(autoSaveInterval) && beforeUnloadListeners == old(beforeUnloadListeners)
      ensures lastSaveTime == old(lastSaveTime) && lastKnownRemoteSha == old(lastKnownRemoteSha)
      ensures lastSyncTime == old(lastSyncTime)
    {
      if !autoSaveEnabled {
        return;
      }
      if autoSaveTimeout.Some? {
        timeouts := timeouts - {autoSaveTimeout.value};
      }
      assert timeouts == map[];
      var id := nextTimerId;
      nextTimerId := nextTimerId + 1;
      timeouts := timeouts[id := DebounceDelay];
      autoSaveTimeout := Some(id);
    }

    // -------------------------------------------------------------------------
    // The merge loops, changing the document in place.

    /** mergeChecklists: the forEach over the remote checklist pushes into
        the local technology's checklist. */
    method MergeChecklists(children: seq<Node>, remoteTech: Node) returns (r: seq<Node>)
      ensures r == SyncMerge.MergeChecklists(children, remoteTech)
    {
      var found := SyncMerge.IndexOfKey(children, remoteTech.name, Technology);
      if found.None? || remoteTech.checklist.None? {
        return children;
      }
      var k := found.value;
      var items := children[k].checklist.GetOr([]);
      var remote := remoteTech.checklist.value;
      var i := 0;
      while i < |remote|
        invariant 0 <= i <= |remote|
        invariant items == SyncMerge.MergeChecklistItems(children[k].checklist.GetOr([]), remote[..i])
      {
        assert remote[..i + 1][..i] == remote[..i];
        if !SyncMerge.HasText(items, remote[i].text) {
          items := items + [remote[i]];
        }
        i := i + 1;
      }
      assert remote[..|remote|] == remote;
      r := children[k := children[k].(checklist := Some(items))];
    }

    /** mergeTechnologies: the forEach over the remote children pushes new
        children and merges the checklists of known technologies; `ok` is
        false when `localCategory.children` is missing and the loop throws. */
    method MergeTechnologies(local: Node, remote: Node) returns (merged: Node, ok: bool)
      ensures (merged, ok) == SyncMerge.MergeTechnologies(local, remote)
    {
      if remote.children.Absent? {
        return local, true;
      }
      var incoming := remote.children.nodes;
      if local.children.Absent? {
        return local, incoming == [];
      }
      var children := local.children.nodes;
      var i := 0;
      while i < |incoming|
        invariant 0 <= i <= |incoming|
        invariant children == SyncMerge.MergeChildren(local.children.nodes, incoming[..i])
      {
        assert incoming[..i + 1][..i] == incoming[..i];
        var item := incoming[i];
        if SyncMerge.IndexOfKey(children, item.name, item.kind).None? {
          children := children + [item];
        } else if item.kind == Technology {
          children := MergeChecklists(children, item);
        }
        i := i + 1;
      }
      assert incoming[..|incoming|] == incoming;
      merged, ok := local.(children := Present(children)), true;
    }

    /** mergeData: the forEach over the remote categories pushes new ones
        onto the document and merges into known ones; a throw leaves what was
        merged so far in place and reports `ok == false`. */
    method MergeData(remote: Option<seq<Node>>) returns (ok: bool)
      modifies doc
      ensures (doc.categories, ok) == SyncMerge.MergeData(old(doc.categories), remote)
    {
      if remote.None? {
        return true;
      }
      var incoming := remote.value;
      var i := 0;
      while i < |incoming|
        invariant 0 <= i <= |incoming|
        invariant SyncMerge.MergeCategories(old(doc.categories), incoming[..i]) == (doc.categories, true)
      {
        assert incoming[..i + 1][..i] == incoming[..i];
        var cat := incoming[i];
        var found := SyncMerge.IndexOfName(doc.categories, cat.name);
        if found.None? {
          doc.categories := doc.categories + [cat];
        } else {
          var merged, done := MergeTechnologies(doc.categories[found.value], cat);
          doc.categories := doc.categories[found.value := merged];
          if !done {
            SyncMerge.MergeCategoriesStopsOnThrow(old(doc.categories), incoming, i + 1);
            return false;
          }
        }
        i := i + 1;
      }
      assert incoming[..|incoming|] == incoming;
      ok := true;
    }

    // -------------------------------------------------------------------------
    // Auto-save.

    /** The inner try block of autoSaveToGitHub: read the remote file, merge
        it when its sha moved, and record the sha. */
    method ReadRemote(get: GetResult) returns (request: Option<PutRequest>)
      modifies this, doc
      ensures var p := PrepareWrite(old(doc.categories), old(lastKnownRemoteSha), get);
              doc.categories == p.doc &&
              (p.Write? ==> request == Some(p.request) && lastKnownRemoteSha == p.knownSha) &&
              (p.Abort? ==> request.None? && lastKnownRemoteSha == old(lastKnownRemoteSha))
      ensures autoSaveEnabled == old(autoSaveEnabled) && autoSaveInterval == old(autoSaveInterval)
      ensures lastSaveTime == old(lastSaveTime) && autoSaveTimeout == old(autoSaveTimeout)
      ensures lastSyncTime == old(lastSyncTime) && timeouts == old(timeouts) && intervals == old(intervals)
      ensures nextTimerId == old(nextTimerId) && beforeUnloadListeners == old(beforeUnloadListeners)
    {
      if get.FetchFailed? {
        return None;
      }
      var currentSha: Option<string> := None;
      if get.status == 200 {
        currentSha := get.sha;
        if MergeNeeded(lastKnownRemoteSha, currentSha) {
          if get.file.Unreadable? {
            return None;
          }
          var ok := MergeData(get.file.categories);
          if !ok {
            return None;
          }
        }
        lastKnownRemoteSha := currentSha;
      }
      request := Some(PutRequest(doc.categories, if Truthy(currentSha) then currentSha else None));
    }

    /** autoSaveToGitHub. `hasCredentials` says token, owner and repo are all
        set; `now` and `savedAt` are the two Date.now() readings; `get` and
        `put` are the two responses; `conflictConfirmed`, `reload` and
        `reloadedAt` are what the conflict path would see. Returns the PUT
        request when one is sent. */
    method AutoSaveToGitHub(hasCredentials: bool, now: int, get: GetResult, put: PutResult, savedAt: int,
                            conflictConfirmed: bool, reload: GetResult, reloadedAt: int)
      returns (request: Option<PutRequest>)
      requires Valid()
      modifies this, doc
      ensures Valid()
      ensures !hasCredentials || !old(autoSaveEnabled) || Throttled(old(lastSaveTime), now) ==>
                request.None? && unchanged(this) && doc.categories == old(doc.categories)
      ensures hasCredentials && old(autoSaveEnabled) && !Throttled(old(lastSaveTime), now) ==>
                var p := PrepareWrite(old(doc.categories), old(lastKnownRemoteSha), get);
                request == (if p.Write? then Some(p.request) else None)
      ensures lastSaveTime != old(lastSaveTime) ==>
                request.Some? && put.PutStatus? && (put.status == 200 || put.status == 201) &&
                lastSaveTime == Some(savedAt) && lastSyncTime == Some(savedAt)
      ensures request.Some? && put.PutStatus? && (put.status == 200 || put.status == 201) ==>
                lastSaveTime == Some(savedAt) && lastSyncTime == Some(savedAt)
      ensures !(request.Some? && put.PutStatus? && (put.status == 200 || put.status == 201)) &&
              !(request.Some? && put == PutStatus(409)) ==>
                lastSaveTime == old(lastSaveTime) && lastSyncTime == old(lastSyncTime)
      ensures !(request.Some? && put == PutStatus(409)) ==>
                autoSaveInterval == old(autoSaveInterval) && autoSaveTimeout == old(autoSaveTimeout) &&
                timeouts == old(timeouts) && intervals == old(intervals) &&
                nextTimerId == old(nextTimerId) && beforeUnloadListeners == old(beforeUnloadListeners)
      ensures request.Some? && put == PutStatus(409) && !conflictConfirmed ==> !autoSaveEnabled
      ensures !(request.Some? && put == PutStatus(409)) ==> autoSaveEnabled == old(autoSaveEnabled)
      ensures hasCredentials && old(autoSaveEnabled) && !Throttled(old(lastSaveTime), now) &&
              !(request.Some? && put == PutStatus(409) && conflictConfirmed && Reloadable(hasCredentials, reload)) ==>
                var p := PrepareWrite(old(doc.categories), old(lastKnownRemoteSha), get);
                doc.categories == p.doc &&
                lastKnownRemoteSha == (if p.Write? then p.knownSha else old(lastKnownRemoteSha))
      ensures hasCredentials && old(autoSaveEnabled) && !Throttled(old(lastSaveTime), now) &&
              request.Some? && put == PutStatus(409) && conflictConfirmed && Reloadable(hasCredentials, reload) ==>
                var p := PrepareWrite(old(doc.categories), old(lastKnownRemoteSha), get);
                var (merged, ok) := SyncMerge.MergeData(p.doc, reload.file.categories);
                doc.categories == merged &&
                (ok ==> lastKnownRemoteSha == reload.sha && lastSyncTime == Some(reloadedAt) && autoSaveEnabled) &&
                (!ok ==> lastKnownRemoteSha == p.knownSha)
    {
      if !hasCredentials || !autoSaveEnabled {
        return None;
      }
      if Throttled(lastSaveTime, now) {
        return None;
      }
      request := ReadRemote(get);
      if request.None? {
        return;
      }
      if put.PutStatus? {
        if put.status == 200 || put.status == 201 {
          lastSaveTime := Some(savedAt);
          lastSyncTime := Some(savedAt);
        } else if put.status == 409 {
          HandleSyncConflict(hasCredentials, conflictConfirmed, reload, reloadedAt);
        }
      }
    }

    /** handleSyncConflict: `confirmed` is the user's answer. Declining
        disables auto-save; accepting reloads and merges as
        loadFromGitHubWithMerge does. */
    method HandleSyncConflict(hasCredentials: bool, confirmed: bool, reload: GetResult, now: int)
      requires Valid()
      modifies this, doc
      ensures Valid()
      ensures !confirmed ==> !autoSaveEnabled && doc.categories == old(doc.categories) &&
                             lastKnownRemoteSha == old(lastKnownRemoteSha)
      ensures lastSaveTime == old(lastSaveTime)
      ensures confirmed && !Reloadable(hasCredentials, reload) ==>
                unchanged(this) && doc.categories == old(doc.categories)
      ensures confirmed && Reloadable(hasCredentials, reload) ==>
                var (merged, ok) := SyncMerge.MergeData(old(doc.categories), reload.file.categories);
                doc.categories == merged &&
                (ok ==> lastKnownRemoteSha == reload.sha && lastSyncTime == Some(now) && autoSaveEnabled) &&
                (!ok ==> lastKnownRemoteSha == old(lastKnownRemoteSha) && lastSyncTime == old(lastSyncTime) &&
                         autoSaveEnabled == old(autoSaveEnabled))
    {
      if confirmed {
        LoadFromGitHubWithMerge(hasCredentials, reload, now);
      } else {
        DisableAutoSave();
      }
    }

    /** loadFromGitHubWithMerge: on a readable 200 response, merge, record the
        sha and the sync time and re-enable auto-save; a merge that throws
        keeps its partial result and skips the rest; anything else changes
        nothing. */
    method LoadFromGitHubWithMerge(hasCredentials: bool, response: GetResult, now: int)
      requires Valid()
      modifies this, doc
      ensures Valid()
      ensures lastSaveTime == old(lastSaveTime)
      ensures !Reloadable(hasCredentials, response) ==>
                unchanged(this) && doc.categories == old(doc.categories)
      ensures Reloadable(hasCredentials, response) ==>
                var (merged, ok) := SyncMerge.MergeData(old(doc.categories), response.file.categories);
                doc.categories == merged &&
                (ok ==> lastKnownRemoteSha == response.sha && lastSyncTime == Some(now) && autoSaveEnabled) &&
                (!ok ==> lastKnownRemoteSha == old(lastKnownRemoteSha) && lastSyncTime == old(lastSyncTime) &&
                         autoSaveEnabled == old(autoSaveEnabled))
    {
      if !hasCredentials {
        return;
      }
      if response.FetchFailed? || response.status != 200 || response.file.Unreadable? {
        return;
      }
      var ok := MergeData(response.file.categories);
      if !ok {
        return;
      }
      lastKnownRemoteSha := response.sha;
      lastSyncTime := Some(now);
      EnableAutoSave();
    }
  }

  // ---------------------------------------------------------------------------
  // What the read phase promises.

  /** The document changes only when a 200 response carries a sha other
      than a previously observed one, and then only by accretion. */
  lemma PrepareWriteMergesOnlyOnShaChange(local: seq<Node>, lastKnown: Option<string>, get: GetResult)
    ensures var p := PrepareWrite(local, lastKnown, get);
            SyncMerge.DocGrows(local, p.doc) &&
            (p.doc != local ==> get.Response? && get.status == 200 && MergeNeeded(lastKnown, get.sha))
  {
    var p := PrepareWrite(local, lastKnown, get);
    if get.Response? && get.status == 200 && MergeNeeded(lastKnown, get.sha) && get.file.Decoded? {
      if get.file.categories.Some? {
        SyncMerge.MergeCategoriesGrows(local, get.file.categories.value);
      } else {
        SyncMerge.DocGrowsRefl(local);
      }
    } else {
      SyncMerge.DocGrowsRefl(local);
    }
  }

  /** When a request follows, it carries the document as merged, and a sha
      only when the file existed (status 200 with a non-empty sha), which is
      then also the recorded sha; after any other status the recorded sha is
      kept. */
  lemma PrepareWriteRequest(local: seq<Node>, lastKnown: Option<string>, get: GetResult)
    ensures var p := PrepareWrite(local, lastKnown, get);
            p.Write? ==>
              p.request.content == p.doc &&
              (p.request.sha.Some? <==> get.status == 200 && Truthy(get.sha)) &&
              (p.request.sha.Some? ==> p.request.sha == get.sha) &&
              (get.status == 200 ==> p.knownSha == get.sha) &&
              (get.status != 200 ==> p.knownSha == lastKnown)
  {
  }

  /** A merge that runs to completion is followed by a write; a read phase
      with no merge to do always writes unless the fetch itself failed. */
  lemma PrepareWriteAborts(local: seq<Node>, lastKnown: Option<string>, get: GetResult)
    ensures var p := PrepareWrite(local, lastKnown, get);
            p.Abort? <==>
              get.FetchFailed? ||
              (get.status == 200 && MergeNeeded(lastKnown, get.sha) &&
               (get.file.Unreadable? || !SyncMerge.MergeData(local, get.file.categories).1))
  {
  }

  /** Once the remote copy equals a well-keyed local document, a moved sha
      merges nothing. */
  lemma PrepareWriteIdenticalRemote(local: seq<Node>, lastKnown: Option<string>, status: int, sha: Option<string>)
    requires SyncMerge.WellKeyed(local)
    ensures PrepareWrite(local, lastKnown, Response(status, sha, Decoded(Some(local)))).doc == local
  {
    SyncMerge.MergeSelf(local);
  }
}
