/**
 * The bounded sync-message loop that both the client (`sendSync`) and the
 * relay (`sendSyncMessages`) run: ask the merge engine for the next message
 * for the current document and sync state, keep the state it returns, stop
 * at the first absent message, and give up after `Cap` rounds.
 *
 * The merge engine's `generateSyncMessage` is the parameter `gen`: it is
 * not modelled, only called.
 */
module SyncExchange {
  import opened Wrappers

  /** A frame arriving on a socket: text, or a binary sync message. */
  datatype Frame<M> = TextFrame(text: string) | BinaryFrame(bytes: M)

  /** The iteration bound of both loops. */
  const Cap: nat := 100

  /**
   * The final sync state and the messages, in order, of at most `fuel`
   * rounds of the loop started from state `s`.
   */
  function Exchange<D, S, M>(gen: (D, S) -> (S, Option<M>), d: D, s: S, fuel: nat): (S, seq<M>)
    decreases fuel
  {
    if fuel == 0 then (s, [])
    else
      var (s1, m) := gen(d, s);
      if m.None? then (s1, [])
      else
        var (s2, ms) := Exchange(gen, d, s1, fuel - 1);
        (s2, [m.value] + ms)
  }

  /**
   * One round of the loop that gets a message: the messages so far plus
   * that one, then what the remaining rounds send, are still all of them.
   */
  lemma ExchangeSome<D, S, M>(gen: (D, S) -> (S, Option<M>), d: D, s: S, fuel: nat, got: seq<M>, want: (S, seq<M>))
    requires fuel > 0 && gen(d, s).1.Some?
    requires Exchange(gen, d, s, fuel).0 == want.0 && got + Exchange(gen, d, s, fuel).1 == want.1
    ensures Exchange(gen, d, gen(d, s).0, fuel - 1).0 == want.0
    ensures (got + [gen(d, s).1.value]) + Exchange(gen, d, gen(d, s).0, fuel - 1).1 == want.1
  {
    var rest := Exchange(gen, d, gen(d, s).0, fuel - 1).1;
    assert Exchange(gen, d, s, fuel).1 == [gen(d, s).1.value] + rest;
    assert (got + [gen(d, s).1.value]) + rest == got + ([gen(d, s).1.value] + rest);
  }

  /** The round that gets no message ends the loop with everything sent and the state it returned. */
  lemma ExchangeNone<D, S, M>(gen: (D, S) -> (S, Option<M>), d: D, s: S, fuel: nat, got: seq<M>, want: (S, seq<M>))
    requires fuel > 0 && gen(d, s).1.None?
    requires Exchange(gen, d, s, fuel).0 == want.0 && got + Exchange(gen, d, s, fuel).1 == want.1
    ensures gen(d, s).0 == want.0 && got == want.1
  {
    assert Exchange(gen, d, s, fuel) == (gen(d, s).0, []);
    assert got + [] == got;
  }

  /** With no rounds left the loop has sent everything and keeps its state. */
  lemma ExchangeDone<D, S, M>(gen: (D, S) -> (S, Option<M>), d: D, s: S, got: seq<M>, want: (S, seq<M>))
    requires Exchange(gen, d, s, 0).0 == want.0 && got + Exchange(gen, d, s, 0).1 == want.1
    ensures s == want.0 && got == want.1
  {
    assert got + [] == got;
  }

  /** The state after `k` calls to the engine, each fed the state the previous one returned. */
  function StateAfter<D, S, M>(gen: (D, S) -> (S, Option<M>), d: D, s: S, k: nat): S
    decreases k
  {
    if k == 0 then s else StateAfter(gen, d, gen(d, s).0, k - 1)
  }

  /** What the engine returns on call number `k` (counting from 0). */
  function MessageAt<D, S, M>(gen: (D, S) -> (S, Option<M>), d: D, s: S, k: nat): Option<M>
  {
    gen(d, StateAfter(gen, d, s, k)).1
  }

  /**
   * The loop sends exactly the messages the engine produces before its first
   * absent one, and at most `fuel` of them; it stops either at that absent
   * message or after `fuel` calls, and keeps the state of its last call.
   */
  lemma {:induction false} ExchangeSends<D, S, M>(gen: (D, S) -> (S, Option<M>), d: D, s: S, fuel: nat)
    ensures var (s', ms) := Exchange(gen, d, s, fuel);
      && |ms| <= fuel
      && (forall k :: 0 <= k < |ms| ==> MessageAt(gen, d, s, k) == Some(ms[k]))
      && (|ms| < fuel ==> MessageAt(gen, d, s, |ms|).None?)
      && s' == StateAfter(gen, d, s, if |ms| < fuel then |ms| + 1 else fuel)
    decreases fuel
  {
    if fuel > 0 {
      var (s1, m) := gen(d, s);
      if m.Some? {
        ExchangeSends(gen, d, s1, fuel - 1);
        var (s2, ms) := Exchange(gen, d, s1, fuel - 1);
        forall k | 0 <= k < |ms| + 1
          ensures MessageAt(gen, d, s, k) == Some(([m.value] + ms)[k])
        {
          if k > 0 {
            assert StateAfter(gen, d, s, k) == StateAfter(gen, d, s1, k - 1);
          }
        }
        assert StateAfter(gen, d, s, |ms| + 1) == StateAfter(gen, d, s1, |ms|);
        assert StateAfter(gen, d, s, |ms| + 2) == StateAfter(gen, d, s1, |ms| + 1);
        assert StateAfter(gen, d, s, fuel) == StateAfter(gen, d, s1, fuel - 1);
      } else {
        assert StateAfter(gen, d, s, 1) == s1;
      }
    }
  }
}
