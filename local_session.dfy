/**
 * The client's session for one sheet (`useSheet`): the merge-engine
 * document, the relay's sync state, the socket, the debounced save timer
 * and the UI store, all of which the session's handlers reassign.
 *
 * The merge engine is opaque: `D` is its document, `S` a sync state, `M` a
 * sync message, and each engine call is a function parameter (`gen` for
 * `generateSyncMessage`, `recv` for `receiveSyncMessage`, `diff` for
 * `diff(doc, before, after)`, `change` for a transactional change, `view`
 * for reading the document as a JSON tree). A result `None` from `recv` or
 * `change` stands for the call throwing.
 */
module LocalSession {
  import opened Wrappers
  import opened Strings
  import opened Json
  import opened Reconciler
  import opened SyncExchange

  /** The store before the first reconciliation: `{ meta: { name: "" }, columns: {}, rows: {} }`. */
  function InitialStore(): (t: Tree)
    ensures t.Keys == {"meta", "columns", "rows"}
  {
    map["meta" := Obj(map["name" := Str("")]), "columns" := Obj(map[]), "rows" := Obj(map[])]
  }

  class Sheet<D, S, M> {
    var amDoc: D
    var syncState: S
    /** The socket exists and its state is OPEN. */
    var socketOpen: bool
    var connected: bool
    var ready: bool
    /** Every message written to the socket, in order. */
    var sent: seq<M>
    /** A save timer is set (`saveTimer` is non-null). */
    var saveTimer: bool
    /** How many save timers have been started. */
    var timersStarted: nat
    /** The cleanup has run; a timer cleared there never fires. */
    var tornDown: bool
    /** Every document written to local storage, in order. */
    var saved: seq<D>
    var store: Tree

    constructor (empty: D, initial: S)
      ensures amDoc == empty && syncState == initial && store == InitialStore()
      ensures !socketOpen && !connected && !ready && !saveTimer && !tornDown
      ensures sent == [] && saved == [] && timersStarted == 0
    {
      amDoc := empty;
      syncState := initial;
      socketOpen := false;
      connected := false;
      ready := false;
      sent := [];
      saveTimer := false;
      timersStarted := 0;
      tornDown := false;
      saved := [];
      store := InitialStore();
    }

    /**
     * `applyPatchesToStore`: the batch of patch paths against the current
     * document's view, in place on the store, with the copied regions
     * recorded under their keys joined by "."; false when a patch throws,
     * the store then keeping what was written before.
     */
    method ApplyPatchesToStore(patches: seq<Path>, view: D -> Tree) returns (ok: bool)
      modifies this`store
      ensures var r := Reconcile(old(store), view(amDoc), patches, JoinedKey);
              store == r.store && ok == r.ok
    {
      ok := true;
      if |patches| == 0 {
        return;
      }
      var doc := view(amDoc);
      var updated: set<string> := {};
      ghost var want := Reconcile(store, doc, patches, JoinedKey);
      var i := 0;
      while i < |patches|
        invariant 0 <= i <= |patches|
        invariant Run(Batch(store, updated, true), doc, patches[i..], JoinedKey) == want
      {
        var path := patches[i];
        ghost var before := Batch(store, updated, true);
        assert patches[i..][1..] == patches[i + 1..];
        i := i + 1;
        assert Run(before, doc, patches[i - 1..], JoinedKey)
            == Run(Step(before, doc, path, JoinedKey), doc, patches[i..], JoinedKey);
        if |path| == 0 {
          assert Step(before, doc, path, JoinedKey) == before;
          continue;
        }
        JoinedKeyParts(path);
        var top := path[0];
        if top in updated {
          assert Step(before, doc, path, JoinedKey) == before;
          continue;
        }
        if |path| <= 2 {
          if top !in doc {
            ok := false;
            return;
          }
          store := store[top := doc[top]];
          updated := updated + {top};
          assert Step(before, doc, path, JoinedKey) == Batch(store, updated, true);
        } else {
          var itemKey := top + "." + path[1];
          if itemKey in updated {
            assert Step(before, doc, path, JoinedKey) == before;
            continue;
          }
          if !(top in store && Truthy(store[top])) {
            store := store[top := Obj(map[])];
          }
          if |path| == 3 {
            assert path[..2] == [top, path[1]];
            var v := At(Obj(doc), [top, path[1]]);
            if v.None? {
              ok := false;
              return;
            }
            var n := Put(store[top], path[1], v.value);
            if n.None? {
              ok := false;
              return;
            }
            store := store[top := n.value];
            updated := updated + {itemKey};
            assert Step(before, doc, path, JoinedKey) == Batch(store, updated, true);
          } else {
            var leafKey := itemKey + "." + Join(path[2..], ".");
            if leafKey in updated {
              assert Step(before, doc, path, JoinedKey) == Batch(store, updated, true);
              continue;
            }
            var dst := Lookup(store[top], path[1]);
            if dst.None? || !IsContainer(dst.value) {
              ok := false;
              return;
            }
            var (d, leafOk) := WriteLeaf(dst.value, path[2..], At(Obj(doc), path));
            store := store[top := Put(store[top], path[1], d).value];
            if !leafOk {
              assert Step(before, doc, path, JoinedKey) == Batch(store, updated, false);
              ok := false;
              return;
            }
            updated := updated + {leafKey};
            assert Step(before, doc, path, JoinedKey) == Batch(store, updated, true);
          }
        }
      }
    }

    /**
     * `sendSync`: nothing unless the socket is open; otherwise the bounded
     * exchange from the current sync state, keeping its last state and
     * writing its messages to the socket.
     */
    method SendSync(gen: (D, S) -> (S, Option<M>))
      modifies this`syncState, this`sent
      ensures !socketOpen ==> syncState == old(syncState) && sent == old(sent)
      ensures socketOpen ==>
                var (s', ms) := Exchange(gen, amDoc, old(syncState), Cap);
                syncState == s' && sent == old(sent) + ms
    {
      if !socketOpen {
        return;
      }
      ghost var want := Exchange(gen, amDoc, syncState, Cap);
      ghost var got: seq<M> := [];
      ghost var stopped := false;
      var iterations := 0;
      while iterations < Cap
        invariant 0 <= iterations <= Cap
        invariant sent == old(sent) + got
        invariant Exchange(gen, amDoc, syncState, Cap - iterations).0 == want.0
        invariant got + Exchange(gen, amDoc, syncState, Cap - iterations).1 == want.1
      {
        ghost var fuel := Cap - iterations;
        iterations := iterations + 1;
        var (nextState, msg) := gen(amDoc, syncState);
        if msg.None? {
          ExchangeNone(gen, amDoc, syncState, fuel, got, want);
          syncState := nextState;
          stopped := true;
          break;
        }
        ExchangeSome(gen, amDoc, syncState, fuel, got, want);
        syncState := nextState;
        sent := sent + [msg.value];
        got := got + [msg.value];
      }
      if !stopped {
        ExchangeDone(gen, amDoc, syncState, got, want);
      }
    }

    /** `scheduleSave`: starts a timer only when none is set. */
    method ScheduleSave()
      modifies this`saveTimer, this`timersStarted
      ensures saveTimer
      ensures timersStarted == old(timersStarted) + (if old(saveTimer) then 0 else 1)
    {
      if saveTimer {
        return;
      }
      saveTimer := true;
      timersStarted := timersStarted + 1;
    }

    /** The save timer's callback: clears the timer, then saves the current document. */
    method SaveTimerFires()
      requires saveTimer && !tornDown
      modifies this`saveTimer, this`saved
      ensures !saveTimer && saved == old(saved) + [amDoc]
    {
      saveTimer := false;
      saved := saved + [amDoc];
    }

    /**
     * The cleanup: closes the socket, and saves synchronously only when a
     * timer is set (the timer is cleared, the variable is left as it is).
     */
    method Cleanup()
      modifies this`socketOpen, this`tornDown, this`saved
      ensures !socketOpen && tornDown
      ensures saved == old(saved) + (if saveTimer then [amDoc] else [])
    {
      socketOpen := false;
      tornDown := true;
      if saveTimer {
        saved := saved + [amDoc];
      }
    }

    /** The socket's open handler: connected, a fresh sync state, then one exchange. */
    method OnOpen(initial: S, gen: (D, S) -> (S, Option<M>))
      modifies this`connected, this`socketOpen, this`syncState, this`sent
      ensures connected && socketOpen
      ensures var (s', ms) := Exchange(gen, amDoc, initial, Cap);
              syncState == s' && sent == old(sent) + ms
    {
      connected := true;
      socketOpen := true;
      syncState := initial;
      SendSync(gen);
    }

    /** The socket's close handler. */
    method OnClose()
      modifies this`connected, this`socketOpen
      ensures !connected && !socketOpen
    {
      connected := false;
      socketOpen := false;
    }

    /**
     * What follows a new document version in both the message handler and
     * `changeDoc`: reconcile the diff from `before`; if that throws, stop
     * there; otherwise an exchange and a scheduled save.
     */
    method AfterNewVersion(before: D, diff: (D, D) -> seq<Path>, view: D -> Tree,
                           gen: (D, S) -> (S, Option<M>))
      modifies this`store, this`syncState, this`sent, this`saveTimer, this`timersStarted
      ensures var r := Reconcile(old(store), view(amDoc), diff(before, amDoc), JoinedKey);
              && store == r.store
              && (!r.ok ==> syncState == old(syncState) && sent == old(sent)
                            && saveTimer == old(saveTimer) && timersStarted == old(timersStarted))
              && (r.ok ==> saveTimer
                           && timersStarted == old(timersStarted) + (if old(saveTimer) then 0 else 1)
                           && (!socketOpen ==> syncState == old(syncState) && sent == old(sent))
                           && (socketOpen ==>
                                 var (s', ms) := Exchange(gen, amDoc, old(syncState), Cap);
                                 syncState == s' && sent == old(sent) + ms))
    {
      var ok := ApplyPatchesToStore(diff(before, amDoc), view);
      if !ok {
        return;
      }
      SendSync(gen);
      ScheduleSave();
    }

    /**
     * The socket's message handler: text frames are ignored; a binary frame
     * goes through `receiveSyncMessage` with the current sync state, and the
     * new document and state are kept before the rest runs.
     */
    method OnMessage(frame: Frame<M>, recv: (D, S, M) -> Option<(D, S)>, diff: (D, D) -> seq<Path>,
                     view: D -> Tree, gen: (D, S) -> (S, Option<M>))
      modifies this`amDoc, this`store, this`syncState, this`sent, this`saveTimer, this`timersStarted
      ensures frame.TextFrame? || recv(old(amDoc), old(syncState), frame.bytes).None? ==>
                amDoc == old(amDoc) && store == old(store) && syncState == old(syncState)
                && sent == old(sent) && saveTimer == old(saveTimer) && timersStarted == old(timersStarted)
      ensures frame.BinaryFrame? && recv(old(amDoc), old(syncState), frame.bytes).Some? ==>
                var (d', s1) := recv(old(amDoc), old(syncState), frame.bytes).value;
                var r := Reconcile(old(store), view(d'), diff(old(amDoc), d'), JoinedKey);
                && amDoc == d' && store == r.store
                && (!r.ok ==> syncState == s1 && sent == old(sent)
                              && saveTimer == old(saveTimer) && timersStarted == old(timersStarted))
                && (r.ok ==> saveTimer
                             && timersStarted == old(timersStarted) + (if old(saveTimer) then 0 else 1)
                             && (!socketOpen ==> syncState == s1 && sent == old(sent))
                             && (socketOpen ==>
                                   var (s', ms) := Exchange(gen, d', s1, Cap);
                                   syncState == s' && sent == old(sent) + ms))
    {
      if frame.TextFrame? {
        return;
      }
      var before := amDoc;
      var received := recv(amDoc, syncState, frame.bytes);
      if received.None? {
        return;
      }
      amDoc, syncState := received.value.0, received.value.1;
      AfterNewVersion(before, diff, view, gen);
    }

    /**
     * `changeDoc`: the change runs as one transaction (nothing happens if it
     * throws), then the diff from the previous version is reconciled, synced
     * and saved.
     */
    method ChangeDoc(change: D -> Option<D>, diff: (D, D) -> seq<Path>, view: D -> Tree,
                     gen: (D, S) -> (S, Option<M>))
      modifies this`amDoc, this`store, this`syncState, this`sent, this`saveTimer, this`timersStarted
      ensures change(old(amDoc)).None? ==>
                amDoc == old(amDoc) && store == old(store) && syncState == old(syncState)
                && sent == old(sent) && saveTimer == old(saveTimer) && timersStarted == old(timersStarted)
      ensures change(old(amDoc)).Some? ==>
                var d' := change(old(amDoc)).value;
                var r := Reconcile(old(store), view(d'), diff(old(amDoc), d'), JoinedKey);
                && amDoc == d' && store == r.store
                && (!r.ok ==> syncState == old(syncState) && sent == old(sent)
                              && saveTimer == old(saveTimer) && timersStarted == old(timersStarted))
                && (r.ok ==> saveTimer
                             && timersStarted == old(timersStarted) + (if old(saveTimer) then 0 else 1)
                             && (!socketOpen ==> syncState == old(syncState) && sent == old(sent))
                             && (socketOpen ==>
                                   var (s', ms) := Exchange(gen, d', old(syncState), Cap);
                                   syncState == s' && sent == old(sent) + ms))
    {
      var before := amDoc;
      var next := change(amDoc);
      if next.None? {
        return;
      }
      amDoc := next.value;
      AfterNewVersion(before, diff, view, gen);
    }

    /**
     * The mount step before the socket is created. `stored` is what local
     * storage and the loader yield: `None` when nothing is stored,
     * `Some(None)` when loading or migrating throws, `Some(Some(d))` for the
     * loaded and migrated document. A stored document is reconciled in full
     * (`fullDiff`, the diff from the empty version); if anything throws, the
     * document falls back to `empty`. With nothing stored the document is
     * left as it is.
     */
    method Mount(stored: Option<Option<D>>, empty: D, fullDiff: D -> seq<Path>, view: D -> Tree)
      modifies this`amDoc, this`store, this`ready
      ensures ready
      ensures stored.None? ==> amDoc == old(amDoc) && store == old(store)
      ensures stored == Some(None) ==> amDoc == empty && store == old(store)
      ensures stored.Some? && stored.value.Some? ==>
                var d := stored.value.value;
                var r := Reconcile(old(store), view(d), fullDiff(d), JoinedKey);
                store == r.store && amDoc == (if r.ok then d else empty)
    {
      if stored.Some? {
        if stored.value.None? {
          amDoc := empty;
        } else {
          amDoc := stored.value.value;
          var ok := ApplyPatchesToStore(fullDiff(amDoc), view);
          if !ok {
            amDoc := empty;
          }
        }
      }
      ready := true;
    }
  }
}
