/**
 * The relay's per-sheet session (`SheetServer`): the document, loaded once
 * from storage or synthesized and written back when nothing was stored; a
 * sync state per connection; the bounded exchange that answers one
 * connection; the fan-out of a received message to every other
 * connection, isolating the connections whose socket throws; and the
 * coalescing save flag.
 *
 * The merge engine is opaque, as on the client: `gen` is
 * `generateSyncMessage`, `recv` is `receiveSyncMessage` (`None` when it
 * throws), `init` the state `initSyncState` returns. A socket's `send` is
 * recorded in the log `sent`; `failing` is the set of connections whose
 * `send` throws.
 */
module Relay {
  import opened Wrappers
  import opened Json
  import opened SyncExchange

  type ConnId = string

  /** What the relay writes to a socket: a sync message, or the JSON error notice of `onConnect`. */
  datatype Outgoing<M> = SyncMsg(msg: M) | ErrorNotice

  /**
   * What storage holds under "doc": nothing, bytes the engine refuses to
   * load (`load` throws), or bytes that load as `d`.
   */
  datatype Stored<D> = Nothing | Corrupt | Blob(d: D)

  /** The document a successful first load ends with: the stored one, or the synthesized `initial`. */
  function LoadedDoc<D>(stored: Stored<D>, initial: D): D
    requires !stored.Corrupt?
  {
    if stored.Blob? then stored.d else initial
  }

  /** `syncStates.get(c) ?? initSyncState()`. */
  function Start<S>(states: map<ConnId, S>, c: ConnId, init: S): S
  {
    if c in states then states[c] else init
  }

  /** The log entries of messages `ms` written, in order, to connection `c`. */
  function Tag<M>(c: ConnId, ms: seq<M>): (log: seq<(ConnId, Outgoing<M>)>)
    ensures |log| == |ms|
  {
    seq(|ms|, k requires 0 <= k < |ms| => (c, SyncMsg(ms[k])))
  }

  lemma TagSnoc<M>(c: ConnId, ms: seq<M>, m: M)
    ensures Tag(c, ms + [m]) == Tag(c, ms) + [(c, SyncMsg(m))]
  {
    assert forall k :: 0 <= k < |ms| ==> Tag(c, ms + [m])[k] == Tag(c, ms)[k];
  }

  /** The sync messages, in order, that the log shows written to connection `c`. */
  function MessagesTo<M>(log: seq<(ConnId, Outgoing<M>)>, c: ConnId): seq<M>
    decreases |log|
  {
    if |log| == 0 then []
    else (if log[0].0 == c && log[0].1.SyncMsg? then [log[0].1.msg] else []) + MessagesTo(log[1..], c)
  }

  lemma {:induction false} MessagesToAppend<M>(a: seq<(ConnId, Outgoing<M>)>, b: seq<(ConnId, Outgoing<M>)>, c: ConnId)
    ensures MessagesTo(a + b, c) == MessagesTo(a, c) + MessagesTo(b, c)
    decreases |a|
  {
    if |a| == 0 {
      assert a + b == b;
    } else {
      assert (a + b)[1..] == a[1..] + b;
      MessagesToAppend(a[1..], b, c);
    }
  }

  /** Only the connection a batch was written to sees it, and it sees all of it, in order. */
  lemma {:induction false} MessagesToTag<M>(d: ConnId, ms: seq<M>, c: ConnId)
    ensures MessagesTo(Tag(d, ms), c) == if c == d then ms else []
    decreases |ms|
  {
    if |ms| > 0 {
      assert Tag(d, ms)[1..] == Tag(d, ms[1..]);
      MessagesToTag(d, ms[1..], c);
      if c == d {
        assert ms == [ms[0]] + ms[1..];
      }
    }
  }

  /** The outcome of one `sendSyncMessages` call: the sync states after it, the messages written, and whether it threw. */
  datatype Round<S, M> = Round(states: map<ConnId, S>, msgs: seq<M>, ok: bool)

  /**
   * `sendSyncMessages(conn)`: the bounded exchange from the connection's
   * state (a fresh one when it has none), whose final state is stored under
   * `conn`. On a failing socket the first `send` throws, so the states are
   * left as they were and nothing is written.
   */
  function SendRound<D, S, M>(gen: (D, S) -> (S, Option<M>), d: D, states: map<ConnId, S>,
                              conn: ConnId, init: S, failing: set<ConnId>): Round<S, M>
  {
    var (s', ms) := Exchange(gen, d, Start(states, conn, init), Cap);
    if conn in failing && |ms| > 0 then Round(states, [], false)
    else Round(states[conn := s'], ms, true)
  }

  /**
   * A round throws exactly when the socket fails and the engine has a first
   * message; otherwise it writes the engine's messages up to the first
   * absent one, at most `Cap` of them, and stores the state of the last
   * engine call under `conn`, leaving every other connection's entry alone.
   */
  lemma SendRoundSends<D, S, M>(gen: (D, S) -> (S, Option<M>), d: D, states: map<ConnId, S>,
                                conn: ConnId, init: S, failing: set<ConnId>)
    ensures var s0 := Start(states, conn, init);
            var r := SendRound(gen, d, states, conn, init, failing);
            && (r.ok <==> conn !in failing || MessageAt(gen, d, s0, 0).None?)
            && (!r.ok ==> r.states == states && r.msgs == [])
            && (r.ok ==>
                  && |r.msgs| <= Cap
                  && (forall k :: 0 <= k < |r.msgs| ==> MessageAt(gen, d, s0, k) == Some(r.msgs[k]))
                  && (|r.msgs| < Cap ==> MessageAt(gen, d, s0, |r.msgs|).None?)
                  && conn in r.states
                  && r.states[conn] == StateAfter(gen, d, s0, if |r.msgs| < Cap then |r.msgs| + 1 else Cap)
                  && (forall c :: c != conn ==>
                        (c in r.states <==> c in states) && (c in states ==> r.states[c] == states[c])))
  {
    ExchangeSends(gen, d, Start(states, conn, init), Cap);
  }

  /**
   * The fan-out loop of `onMessage` over the connections `conns`, skipping
   * the sender: each other connection gets a round; when its round throws,
   * its sync state is deleted and the loop goes on. The final states and
   * the log of what was written.
   */
  function FanOut<D, S, M>(gen: (D, S) -> (S, Option<M>), d: D, states: map<ConnId, S>, sender: ConnId,
                           conns: seq<ConnId>, init: S, failing: set<ConnId>): (map<ConnId, S>, seq<(ConnId, Outgoing<M>)>)
    decreases |conns|
  {
    if |conns| == 0 then (states, [])
    else
      var c := conns[0];
      if c == sender then FanOut(gen, d, states, sender, conns[1..], init, failing)
      else
        var r := SendRound(gen, d, states, c, init, failing);
        var next := if r.ok then r.states else states - {c};
        var (fin, log) := FanOut(gen, d, next, sender, conns[1..], init, failing);
        (fin, Tag(c, r.msgs) + log)
  }

  /** The fan-out passes over the sender. */
  lemma FanOutSkip<D, S, M>(gen: (D, S) -> (S, Option<M>), d: D, states: map<ConnId, S>, sender: ConnId,
                            conns: seq<ConnId>, init: S, failing: set<ConnId>)
    requires |conns| > 0 && conns[0] == sender
    ensures FanOut(gen, d, states, sender, conns, init, failing) == FanOut(gen, d, states, sender, conns[1..], init, failing)
  {
  }

  /** The fan-out serves a connection other than the sender with one round, then goes on. */
  lemma FanOutServe<D, S, M>(gen: (D, S) -> (S, Option<M>), d: D, states: map<ConnId, S>, sender: ConnId,
                             conns: seq<ConnId>, init: S, failing: set<ConnId>)
    requires |conns| > 0 && conns[0] != sender
    ensures var r := SendRound(gen, d, states, conns[0], init, failing);
            var next := if r.ok then r.states else states - {conns[0]};
            var tail := FanOut(gen, d, next, sender, conns[1..], init, failing);
            FanOut(gen, d, states, sender, conns, init, failing) == (tail.0, Tag(conns[0], r.msgs) + tail.1)
  {
  }

  /** One round leaves every other connection's entry as it was, whether or not it threw. */
  lemma RoundKeepsOthers<D, S, M>(gen: (D, S) -> (S, Option<M>), d: D, states: map<ConnId, S>,
                                  h: ConnId, init: S, failing: set<ConnId>, c: ConnId)
    requires c != h
    ensures var r := SendRound(gen, d, states, h, init, failing);
            var next := if r.ok then r.states else states - {h};
            (c in next <==> c in states) && (c in states ==> next[c] == states[c])
  {
  }

  /** One round stores the exchange's final state for its connection, or deletes its entry when it threw. */
  lemma RoundOwn<D, S, M>(gen: (D, S) -> (S, Option<M>), d: D, states: map<ConnId, S>,
                          h: ConnId, init: S, failing: set<ConnId>)
    ensures var r := SendRound(gen, d, states, h, init, failing);
            var e := Exchange(gen, d, Start(states, h, init), Cap);
            var next := if r.ok then r.states else states - {h};
            && (r.ok <==> !(h in failing && |e.1| > 0))
            && (h in next <==> r.ok) && (r.ok ==> next[h] == e.0)
            && r.msgs == (if r.ok then e.1 else [])
  {
  }

  /** The sender and the connections not listed keep their entries and are written nothing. */
  lemma {:induction false} FanOutUntouched<D, S, M>(gen: (D, S) -> (S, Option<M>), d: D, states: map<ConnId, S>,
                                                    sender: ConnId, conns: seq<ConnId>, init: S,
                                                    failing: set<ConnId>, c: ConnId)
    requires c == sender || c !in conns
    ensures var (fin, log) := FanOut(gen, d, states, sender, conns, init, failing);
            (c in fin <==> c in states) && (c in states ==> fin[c] == states[c]) && MessagesTo(log, c) == []
    decreases |conns|
  {
    if |conns| > 0 {
      var h := conns[0];
      var rest := conns[1..];
      assert c in conns <==> c == h || c in rest;
      if h == sender {
        FanOutSkip(gen, d, states, sender, conns, init, failing);
        FanOutUntouched(gen, d, states, sender, rest, init, failing, c);
      } else {
        var r: Round<S, M> := SendRound(gen, d, states, h, init, failing);
        var next := if r.ok then r.states else states - {h};
        FanOutServe(gen, d, states, sender, conns, init, failing);
        RoundKeepsOthers(gen, d, states, h, init, failing, c);
        FanOutUntouched(gen, d, next, sender, rest, init, failing, c);
        var tail := FanOut(gen, d, next, sender, rest, init, failing);
        MessagesToAppend(Tag(h, r.msgs), tail.1, c);
        MessagesToTag(h, r.msgs, c);
      }
    }
  }

  /** A connection served by the first round of the fan-out, and listed only there. */
  lemma FanOutServedFirst<D, S, M>(gen: (D, S) -> (S, Option<M>), d: D, states: map<ConnId, S>,
                                   sender: ConnId, conns: seq<ConnId>, init: S,
                                   failing: set<ConnId>, c: ConnId)
    requires |conns| > 0 && conns[0] == c && c != sender && c !in conns[1..]
    ensures var (fin, log) := FanOut(gen, d, states, sender, conns, init, failing);
            var e := Exchange(gen, d, Start(states, c, init), Cap);
            var throws := c in failing && |e.1| > 0;
            && (c in fin <==> !throws) && (!throws ==> fin[c] == e.0)
            && MessagesTo(log, c) == (if throws then [] else e.1)
  {
    var r: Round<S, M> := SendRound(gen, d, states, c, init, failing);
    var next := if r.ok then r.states else states - {c};
    FanOutServe(gen, d, states, sender, conns, init, failing);
    var tail := FanOut(gen, d, next, sender, conns[1..], init, failing);
    MessagesToAppend(Tag(c, r.msgs), tail.1, c);
    MessagesToTag(c, r.msgs, c);
    RoundOwn(gen, d, states, c, init, failing);
    FanOutUntouched(gen, d, next, sender, conns[1..], init, failing, c);
  }

  /**
   * A round for another connection changes nothing about `c`: what the rest
   * of the fan-out does for `c` is what the whole does, from the same state.
   */
  lemma FanOutPassOn<D, S, M>(gen: (D, S) -> (S, Option<M>), d: D, states: map<ConnId, S>,
                              sender: ConnId, conns: seq<ConnId>, init: S,
                              failing: set<ConnId>, c: ConnId)
    requires |conns| > 0 && conns[0] != sender && conns[0] != c
    ensures var r := SendRound(gen, d, states, conns[0], init, failing);
            var next := if r.ok then r.states else states - {conns[0]};
            var whole := FanOut(gen, d, states, sender, conns, init, failing);
            var tail := FanOut(gen, d, next, sender, conns[1..], init, failing);
            && whole.0 == tail.0
            && MessagesTo(whole.1, c) == MessagesTo(tail.1, c)
            && Start(next, c, init) == Start(states, c, init)
  {
    var h := conns[0];
    var r: Round<S, M> := SendRound(gen, d, states, h, init, failing);
    var next := if r.ok then r.states else states - {h};
    FanOutServe(gen, d, states, sender, conns, init, failing);
    var tail := FanOut(gen, d, next, sender, conns[1..], init, failing);
    MessagesToAppend(Tag(h, r.msgs), tail.1, c);
    MessagesToTag(h, r.msgs, c);
    RoundKeepsOthers(gen, d, states, h, init, failing, c);
  }

  /**
   * A listed connection other than the sender is served once, from its own
   * state before the fan-out.
   */
  lemma {:induction false} FanOutServed<D, S, M>(gen: (D, S) -> (S, Option<M>), d: D, states: map<ConnId, S>,
                                                 sender: ConnId, conns: seq<ConnId>, init: S,
                                                 failing: set<ConnId>, c: ConnId)
    requires forall i, j :: 0 <= i < j < |conns| ==> conns[i] != conns[j]
    requires c != sender && c in conns
    ensures var (fin, log) := FanOut(gen, d, states, sender, conns, init, failing);
            var e := Exchange(gen, d, Start(states, c, init), Cap);
            var throws := c in failing && |e.1| > 0;
            && (c in fin <==> !throws) && (!throws ==> fin[c] == e.0)
            && MessagesTo(log, c) == (if throws then [] else e.1)
    decreases |conns|
  {
    var h := conns[0];
    var rest := conns[1..];
    assert forall i, j :: 0 <= i < j < |rest| ==> rest[i] != rest[j] by {
      forall i, j | 0 <= i < j < |rest| ensures rest[i] != rest[j] {
        assert rest[i] == conns[i + 1] && rest[j] == conns[j + 1];
      }
    }
    assert c in conns <==> c == h || c in rest;
    if h == sender {
      FanOutSkip(gen, d, states, sender, conns, init, failing);
      FanOutServed(gen, d, states, sender, rest, init, failing, c);
    } else if c == h {
      assert h !in rest by {
        forall j | 0 <= j < |rest| ensures rest[j] != h {
          assert rest[j] == conns[j + 1];
        }
      }
      FanOutServedFirst(gen, d, states, sender, conns, init, failing, c);
    } else {
      var r: Round<S, M> := SendRound(gen, d, states, h, init, failing);
      var next := if r.ok then r.states else states - {h};
      FanOutPassOn(gen, d, states, sender, conns, init, failing, c);
      FanOutServed(gen, d, next, sender, rest, init, failing, c);
    }
  }

  /**
   * Fan-out isolation. With distinct connection ids, each connection `c`
   * other than the sender is served exactly once, from its own state before
   * the fan-out: its messages reach it once and in order, and afterwards it
   * holds the exchange's final state, or no state at all when its socket
   * threw. The sender and the connections not listed keep their entries and
   * are written nothing. No connection's failure affects another's outcome.
   */
  lemma FanOutIsolated<D, S, M>(gen: (D, S) -> (S, Option<M>), d: D, states: map<ConnId, S>,
                                sender: ConnId, conns: seq<ConnId>, init: S,
                                failing: set<ConnId>, c: ConnId)
    requires forall i, j :: 0 <= i < j < |conns| ==> conns[i] != conns[j]
    ensures var (fin, log) := FanOut(gen, d, states, sender, conns, init, failing);
            var e := Exchange(gen, d, Start(states, c, init), Cap);
            var throws := c in failing && |e.1| > 0;
            && (c == sender || c !in conns ==>
                  (c in fin <==> c in states) && (c in states ==> fin[c] == states[c]) && MessagesTo(log, c) == [])
            && (c != sender && c in conns ==>
                  (c in fin <==> !throws) && (!throws ==> fin[c] == e.0)
                  && MessagesTo(log, c) == (if throws then [] else e.1))
  {
    if c == sender || c !in conns {
      FanOutUntouched(gen, d, states, sender, conns, init, failing, c);
    } else {
      FanOutServed(gen, d, states, sender, conns, init, failing, c);
    }
  }

  /**
   * One pass of the fan-out loop: serving (or skipping) `conns[i]` from the
   * loop's state leaves what the rest of the loop has to do.
   */
  lemma FanOutLoopStep<D, S, M>(gen: (D, S) -> (S, Option<M>), d: D, states: map<ConnId, S>, sender: ConnId,
                                conns: seq<ConnId>, i: nat, init: S, failing: set<ConnId>,
                                logBefore: seq<(ConnId, Outgoing<M>)>, logAfter: seq<(ConnId, Outgoing<M>)>,
                                statesAfter: map<ConnId, S>,
                                want: (map<ConnId, S>, seq<(ConnId, Outgoing<M>)>), all: seq<(ConnId, Outgoing<M>)>)
    requires i < |conns|
    requires FanOut(gen, d, states, sender, conns[i..], init, failing).0 == want.0
    requires logBefore + FanOut(gen, d, states, sender, conns[i..], init, failing).1 == all
    requires conns[i] == sender ==> statesAfter == states && logAfter == logBefore
    requires conns[i] != sender ==>
               var r := SendRound(gen, d, states, conns[i], init, failing);
               && statesAfter == (if r.ok then r.states else states - {conns[i]})
               && logAfter == logBefore + Tag(conns[i], r.msgs)
    ensures FanOut(gen, d, statesAfter, sender, conns[i + 1..], init, failing).0 == want.0
    ensures logAfter + FanOut(gen, d, statesAfter, sender, conns[i + 1..], init, failing).1 == all
  {
    assert conns[i..][1..] == conns[i + 1..];
    if conns[i] == sender {
      FanOutSkip(gen, d, states, sender, conns[i..], init, failing);
    } else {
      FanOutServe(gen, d, states, sender, conns[i..], init, failing);
      var r := SendRound(gen, d, states, conns[i], init, failing);
      var tail := FanOut(gen, d, statesAfter, sender, conns[i + 1..], init, failing);
      assert logAfter + tail.1 == logBefore + (Tag(conns[i], r.msgs) + tail.1);
    }
  }

  /** A column entry of the initial document. */
  function ColumnEntry(id: string, name: string, kind: string, order: string): Json
  {
    Obj(map["id" := Str(id), "name" := Str(name), "type" := Str(kind), "order" := Str(order)])
  }

  /** A row entry of the initial document, with no cell values. */
  function RowEntry(id: string, order: string): Json
  {
    Obj(map["id" := Str(id), "order" := Str(order), "values" := Obj(map[])])
  }

  /** The rows map after the first `n` rows have been written, each under its id. */
  function RowsWritten(rowIds: seq<string>, rowOrders: seq<string>, n: nat): map<string, Json>
    requires n <= |rowIds| && n <= |rowOrders|
    decreases n
  {
    if n == 0 then map[]
    else RowsWritten(rowIds, rowOrders, n - 1)[rowIds[n - 1] := RowEntry(rowIds[n - 1], rowOrders[n - 1])]
  }

  /**
   * Writing three rows: every id has an entry, a row id seen twice keeps the
   * last row written under it, and distinct ids give three rows.
   */
  lemma ThreeRowsWritten(rowIds: seq<string>, rowOrders: seq<string>)
    requires |rowIds| == 3 && |rowOrders| == 3
    ensures var rows := RowsWritten(rowIds, rowOrders, 3);
            && rows.Keys == {rowIds[0], rowIds[1], rowIds[2]}
            && (forall i :: 0 <= i < 3 && (forall j :: i < j < 3 ==> rowIds[j] != rowIds[i]) ==>
                  rows[rowIds[i]] == RowEntry(rowIds[i], rowOrders[i]))
            && (rowIds[0] != rowIds[1] && rowIds[0] != rowIds[2] && rowIds[1] != rowIds[2] ==> |rows| == 3)
  {
    var e0, e1, e2 := RowEntry(rowIds[0], rowOrders[0]), RowEntry(rowIds[1], rowOrders[1]), RowEntry(rowIds[2], rowOrders[2]);
    assert RowsWritten(rowIds, rowOrders, 1) == map[rowIds[0] := e0];
    assert RowsWritten(rowIds, rowOrders, 2) == map[rowIds[0] := e0][rowIds[1] := e1];
    assert RowsWritten(rowIds, rowOrders, 3) == map[rowIds[0] := e0][rowIds[1] := e1][rowIds[2] := e2];
    DistinctCount(rowIds[0], rowIds[1], rowIds[2]);
  }

  /**
   * The loop of `makeInitialDoc` that writes the three rows: every id gets
   * an entry, and a row id seen twice keeps the last row written under it.
   */
  method InitialRows(rowIds: seq<string>, rowOrders: seq<string>) returns (rows: map<string, Json>)
    requires |rowIds| == 3 && |rowOrders| == 3
    ensures rows.Keys == {rowIds[0], rowIds[1], rowIds[2]}
    ensures forall i :: 0 <= i < 3 && (forall j :: i < j < 3 ==> rowIds[j] != rowIds[i]) ==>
              rows[rowIds[i]] == RowEntry(rowIds[i], rowOrders[i])
    ensures rowIds[0] != rowIds[1] && rowIds[0] != rowIds[2] && rowIds[1] != rowIds[2] ==> |rows| == 3
  {
    rows := map[];
    for i := 0 to 3
      invariant rows == RowsWritten(rowIds, rowOrders, i)
    {
      var rowId := rowIds[i];
      rows := rows[rowId := RowEntry(rowId, rowOrders[i])];
    }
    ThreeRowsWritten(rowIds, rowOrders);
  }

  lemma DistinctCount(x: string, y: string, z: string)
    ensures x != y && x != z && y != z ==> |{x, y, z}| == 3
  {
  }

  /**
   * `makeInitialDoc`: the tree the one initializing change writes into the
   * empty document. The ids (`newId`) and the order keys
   * (`generateNKeysBetween`) are parameters; nothing is assumed about them.
   */
  method MakeInitialDoc(col1: string, col2: string, colOrders: seq<string>,
                        rowIds: seq<string>, rowOrders: seq<string>) returns (t: Tree)
    requires |colOrders| == 2 && |rowIds| == 3 && |rowOrders| == 3
    ensures t.Keys == {"meta", "columns", "rows"}
    ensures t["meta"] == Obj(map["name" := Str("Untitled Sheet")])
    ensures t["columns"].Obj? && t["columns"].fields.Keys == {col1, col2}
    ensures t["columns"].fields[col2] == ColumnEntry(col2, "Done", "checkbox", colOrders[1])
    ensures col1 != col2 ==> t["columns"].fields[col1] == ColumnEntry(col1, "Name", "text", colOrders[0])
    ensures col1 != col2 ==> |t["columns"].fields| == 2
    ensures t["rows"].Obj? && t["rows"].fields.Keys == {rowIds[0], rowIds[1], rowIds[2]}
    ensures forall i :: 0 <= i < 3 && (forall j :: i < j < 3 ==> rowIds[j] != rowIds[i]) ==>
              t["rows"].fields[rowIds[i]] == RowEntry(rowIds[i], rowOrders[i])
    ensures rowIds[0] != rowIds[1] && rowIds[0] != rowIds[2] && rowIds[1] != rowIds[2] ==>
              |t["rows"].fields| == 3
  {
    var columns: map<string, Json> := map[];
    columns := columns[col1 := ColumnEntry(col1, "Name", "text", colOrders[0])];
    columns := columns[col2 := ColumnEntry(col2, "Done", "checkbox", colOrders[1])];
    assert col1 != col2 ==> |columns| == |{col1, col2}| == 2;
    var rows := InitialRows(rowIds, rowOrders);
    t := map["meta" := Obj(map["name" := Str("Untitled Sheet")]), "columns" := Obj(columns), "rows" := Obj(rows)];
  }

  class SheetServer<D, S, M> {
    /** The document; absent until the first successful load. */
    var doc: Option<D>
    var loaded: bool
    /** A save timer is pending (`saveTimeout` is non-null). */
    var saveTimeout: bool
    /** How many save timers have been started. */
    var timersStarted: nat
    var syncStates: map<ConnId, S>
    /** Everything written to sockets, in order, with the connection it went to. */
    var sent: seq<(ConnId, Outgoing<M>)>
    /** Every document written to storage, in order. */
    var persisted: seq<D>

    /** The document is present exactly once it has been loaded. */
    ghost predicate Valid()
      reads this
    {
      loaded <==> doc.Some?
    }

    constructor ()
      ensures Valid() && !loaded && doc == None && !saveTimeout && timersStarted == 0
      ensures syncStates == map[] && sent == [] && persisted == []
    {
      doc := None;
      loaded := false;
      saveTimeout := false;
      timersStarted := 0;
      syncStates := map[];
      sent := [];
      persisted := [];
    }

    /**
     * `ensureLoaded`: nothing once loaded. Otherwise the stored document is
     * loaded, or, with nothing stored, the synthesized `initial` is taken and
     * written to storage at once; bytes the engine refuses throw, leaving
     * the session unloaded.
     */
    method EnsureLoaded(stored: Stored<D>, initial: D) returns (ok: bool)
      requires Valid()
      modifies this`doc, this`loaded, this`persisted
      ensures Valid()
      ensures ok == loaded == (old(loaded) || !stored.Corrupt?)
      ensures doc == (if old(loaded) || stored.Corrupt? then old(doc) else Some(LoadedDoc(stored, initial)))
      ensures persisted == old(persisted) + (if !old(loaded) && stored.Nothing? then [initial] else [])
    {
      if loaded {
        return true;
      }
      if stored.Corrupt? {
        return false;
      }
      if stored.Blob? {
        doc := Some(stored.d);
      } else {
        doc := Some(initial);
      }
      if stored.Nothing? {
        persisted := persisted + [initial];
      }
      loaded := true;
      ok := true;
    }

    /** `scheduleSave`: a no-op while a save is pending. */
    method ScheduleSave()
      modifies this`saveTimeout, this`timersStarted
      ensures saveTimeout
      ensures timersStarted == old(timersStarted) + (if old(saveTimeout) then 0 else 1)
    {
      if saveTimeout {
        return;
      }
      saveTimeout := true;
      timersStarted := timersStarted + 1;
    }

    /** The save timer's callback: the pending flag is cleared before the document is persisted. */
    method SaveFires()
      requires Valid() && saveTimeout && loaded
      modifies this`saveTimeout, this`persisted
      ensures !saveTimeout && persisted == old(persisted) + [doc.value]
    {
      saveTimeout := false;
      persisted := persisted + [doc.value];
    }

    /**
     * The loop of `sendSyncMessages`: at most `Cap` engine calls from `s0`,
     * each message written to the socket as it comes; on a failing socket
     * the first write throws.
     */
    method WriteExchange(conn: ConnId, gen: (D, S) -> (S, Option<M>), d: D, s0: S, failing: set<ConnId>)
      returns (state: S, ok: bool)
      modifies this`sent
      ensures var e := Exchange(gen, d, s0, Cap);
              && (ok <==> !(conn in failing && |e.1| > 0))
              && (ok ==> state == e.0 && sent == old(sent) + Tag(conn, e.1))
              && (!ok ==> sent == old(sent))
    {
      state := s0;
      ghost var want := Exchange(gen, d, s0, Cap);
      ghost var got: seq<M> := [];
      ghost var stopped := false;
      var iterations := 0;
      while iterations < Cap
        invariant 0 <= iterations <= Cap
        invariant sent == old(sent) + Tag(conn, got)
        invariant conn in failing ==> got == []
        invariant Exchange(gen, d, state, Cap - iterations).0 == want.0
        invariant got + Exchange(gen, d, state, Cap - iterations).1 == want.1
      {
        ghost var fuel := Cap - iterations;
        iterations := iterations + 1;
        var (nextState, msg) := gen(d, state);
        if msg.None? {
          ExchangeNone(gen, d, state, fuel, got, want);
          state := nextState;
          stopped := true;
          break;
        }
        ExchangeSome(gen, d, state, fuel, got, want);
        state := nextState;
        if conn in failing {
          return state, false;
        }
        TagSnoc(conn, got, msg.value);
        sent := sent + [(conn, SyncMsg(msg.value))];
        got := got + [msg.value];
      }
      if !stopped {
        ExchangeDone(gen, d, state, got, want);
      }
      ok := true;
    }

    /**
     * `sendSyncMessages(conn)`: the bounded exchange from the connection's
     * state (a fresh one when it has none); the final state is stored under
     * `conn`. On a failing socket the first write throws and nothing is
     * stored.
     */
    method SendSyncMessages(conn: ConnId, gen: (D, S) -> (S, Option<M>), init: S, failing: set<ConnId>)
      returns (ok: bool)
      requires doc.Some?
      modifies this`syncStates, this`sent
      ensures var r := SendRound(gen, doc.value, old(syncStates), conn, init, failing);
              syncStates == r.states && sent == old(sent) + Tag(conn, r.msgs) && ok == r.ok
    {
      var s0 := if conn in syncStates then syncStates[conn] else init;
      var state;
      state, ok := WriteExchange(conn, gen, doc.value, s0, failing);
      if ok {
        syncStates := syncStates[conn := state];
      }
    }

    /**
     * The fan-out loop of `onMessage`: every connection in `conns` other
     * than the sender gets a `sendSyncMessages` round; a round that throws
     * deletes that connection's sync state and the loop goes on.
     */
    method FanOutLoop(sender: ConnId, conns: seq<ConnId>, gen: (D, S) -> (S, Option<M>), init: S,
                      failing: set<ConnId>)
      requires doc.Some?
      modifies this`syncStates, this`sent
      ensures var (fin, log) := FanOut(gen, doc.value, old(syncStates), sender, conns, init, failing);
              syncStates == fin && sent == old(sent) + log
    {
      var d := doc.value;
      ghost var want := FanOut(gen, d, syncStates, sender, conns, init, failing);
      for i := 0 to |conns|
        invariant FanOut(gen, d, syncStates, sender, conns[i..], init, failing).0 == want.0
        invariant sent + FanOut(gen, d, syncStates, sender, conns[i..], init, failing).1 == old(sent) + want.1
      {
        var c := conns[i];
        ghost var before := syncStates;
        ghost var logBefore := sent;
        if c != sender {
          var ok := SendSyncMessages(c, gen, init, failing);
          if !ok {
            syncStates := syncStates - {c};
          }
        }
        FanOutLoopStep(gen, d, before, sender, conns, i, init, failing, logBefore, sent, syncStates, want, old(sent) + want.1);
      }
    }

    /**
     * `onConnect`: load, install a fresh sync state for the connection, then
     * answer it. A load failure is reported to the connection as an error
     * notice (which a failing socket cannot carry either).
     */
    method OnConnect(conn: ConnId, stored: Stored<D>, initial: D, init: S,
                     gen: (D, S) -> (S, Option<M>), failing: set<ConnId>)
      requires Valid()
      modifies this`doc, this`loaded, this`persisted, this`syncStates, this`sent
      ensures Valid()
      ensures loaded == (old(loaded) || !stored.Corrupt?)
      ensures doc == (if old(loaded) || stored.Corrupt? then old(doc) else Some(LoadedDoc(stored, initial)))
      ensures persisted == old(persisted) + (if !old(loaded) && stored.Nothing? then [initial] else [])
      ensures !loaded ==> syncStates == old(syncStates)
                          && sent == old(sent) + (if conn in failing then [] else [(conn, ErrorNotice)])
      ensures loaded ==>
                var r := SendRound(gen, doc.value, old(syncStates)[conn := init], conn, init, failing);
                && syncStates == (if r.ok then r.states else old(syncStates)[conn := init])
                && sent == old(sent) + Tag(conn, r.msgs)
    {
      var ok := EnsureLoaded(stored, initial);
      if !ok {
        if conn !in failing {
          sent := sent + [(conn, ErrorNotice)];
        }
        return;
      }
      syncStates := syncStates[conn := init];
      ok := SendSyncMessages(conn, gen, init, failing);
    }

    /**
     * `onMessage`: text frames are ignored. A binary frame, once the
     * document is loaded, goes through `receiveSyncMessage` with the
     * sender's state (fresh when it has none); the new document and the
     * sender's new state are kept; the sender is answered first, then every
     * other connection in `conns` (the server's current connections) is
     * served by the fan-out, and a save is scheduled. Any throw outside the
     * fan-out ends the handler where it happens.
     */
    method OnMessage(conn: ConnId, frame: Frame<M>, stored: Stored<D>, initial: D, init: S,
                     gen: (D, S) -> (S, Option<M>), recv: (D, S, M) -> Option<(D, S)>,
                     conns: seq<ConnId>, failing: set<ConnId>)
      requires Valid()
      modifies this`doc, this`loaded, this`persisted, this`syncStates, this`sent
      modifies this`saveTimeout, this`timersStarted
      ensures Valid()
      ensures frame.TextFrame? ==>
                doc == old(doc) && loaded == old(loaded) && persisted == old(persisted)
                && syncStates == old(syncStates) && sent == old(sent)
                && saveTimeout == old(saveTimeout) && timersStarted == old(timersStarted)
      ensures frame.BinaryFrame? ==>
                && loaded == (old(loaded) || !stored.Corrupt?)
                && persisted == old(persisted) + (if !old(loaded) && stored.Nothing? then [initial] else [])
      ensures frame.BinaryFrame? && !loaded ==>
                doc == old(doc) && syncStates == old(syncStates) && sent == old(sent)
                && saveTimeout == old(saveTimeout) && timersStarted == old(timersStarted)
      ensures frame.BinaryFrame? && loaded ==>
                var d0 := if old(loaded) then old(doc).value else LoadedDoc(stored, initial);
                var got := recv(d0, Start(old(syncStates), conn, init), frame.bytes);
                && (got.None? ==>
                      doc == Some(d0) && syncStates == old(syncStates) && sent == old(sent)
                      && saveTimeout == old(saveTimeout) && timersStarted == old(timersStarted))
                && (got.Some? ==>
                      var (d1, s1) := got.value;
                      var r := SendRound(gen, d1, old(syncStates)[conn := s1], conn, init, failing);
                      && doc == Some(d1)
                      && (!r.ok ==>
                            syncStates == old(syncStates)[conn := s1] && sent == old(sent)
                            && saveTimeout == old(saveTimeout) && timersStarted == old(timersStarted))
                      && (r.ok ==>
                            var (fin, log) := FanOut(gen, d1, r.states, conn, conns, init, failing);
                            && syncStates == fin
                            && sent == old(sent) + Tag(conn, r.msgs) + log
                            && saveTimeout
                            && timersStarted == old(timersStarted) + (if old(saveTimeout) then 0 else 1)))
    {
      if frame.TextFrame? {
        return;
      }
      var ok := EnsureLoaded(stored, initial);
      if !ok {
        return;
      }
      var state := if conn in syncStates then syncStates[conn] else init;
      var received := recv(doc.value, state, frame.bytes);
      if received.None? {
        return;
      }
      var (newDoc, newState) := received.value;
      doc := Some(newDoc);
      syncStates := syncStates[conn := newState];
      ok := SendSyncMessages(conn, gen, init, failing);
      if !ok {
        return;
      }
      FanOutLoop(conn, conns, gen, init, failing);
      ScheduleSave();
    }

    /** `onClose`: removes that connection's sync state and no other. */
    method OnClose(conn: ConnId)
      modifies this`syncStates
      ensures syncStates == old(syncStates) - {conn}
    {
      syncStates := syncStates - {conn};
    }
  }
}
