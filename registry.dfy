/**
 * The player registry of `GameServer` as values: a map from player id to
 * player, admission guarded by the configured maximum, and idempotent
 * removal. The class in module Server keeps its map equal to these functions.
 */
module Registry {
  import opened Wrappers

  /** The number of players the registry can hold: a negative maximum admits nobody. */
  function Capacity(maxPlayers: int): nat {
    if maxPlayers < 0 then 0 else maxPlayers
  }

  /** The admission guard of `RegisterPlayer`. */
  predicate Full<V>(players: map<string, V>, maxPlayers: int) {
    |players| >= maxPlayers
  }

  /**
   * Admission: `None` ("server is full") when the map already holds
   * `maxPlayers` entries or more; otherwise the map with `id` bound to `v`.
   * A repeated id replaces the entry it already has.
   */
  function Admit<V>(players: map<string, V>, maxPlayers: int, id: string, v: V): (r: Option<map<string, V>>)
    ensures r.None? <==> |players| >= maxPlayers
    ensures r.Some? ==> id in r.value && r.value[id] == v
    ensures r.Some? ==> forall k :: k != id ==> (k in r.value <==> k in players)
    ensures r.Some? ==> forall k :: k != id && k in players ==> r.value[k] == players[k]
    ensures r.Some? ==> |r.value| == if id in players then |players| else |players| + 1
    ensures r.Some? ==> |r.value| <= Capacity(maxPlayers)
  {
    if Full(players, maxPlayers) then None else Some(players[id := v])
  }

  /** Removal: drops `id` when present and is a no-op otherwise. */
  function Remove<V>(players: map<string, V>, id: string): (r: map<string, V>)
    ensures id !in r
    ensures forall k :: k != id ==> (k in r <==> k in players)
    ensures forall k :: k in r ==> r[k] == players[k]
    ensures |r| == if id in players then |players| - 1 else |players|
  {
    players - {id}
  }

  lemma RemoveIdempotent<V>(players: map<string, V>, id: string)
    ensures Remove(Remove(players, id), id) == Remove(players, id)
    ensures id !in players ==> Remove(players, id) == players
  {
  }

  /** One registry operation, as issued by a connection handler or its session loop. */
  datatype Op<V> = AdmitOp(id: string, v: V) | RemoveOp(id: string)

  function Step<V>(players: map<string, V>, maxPlayers: int, op: Op<V>): map<string, V> {
    match op
    case AdmitOp(id, v) =>
      (match Admit(players, maxPlayers, id, v)
       case Some(next) => next
       case None => players)
    case RemoveOp(id) => Remove(players, id)
  }

  /** The registry after a sequence of admissions and removals, in order. */
  function Apply<V>(players: map<string, V>, maxPlayers: int, ops: seq<Op<V>>): (r: map<string, V>)
    ensures |r| <= |players| + |ops|
    decreases |ops|
  {
    if ops == [] then players else Apply(Step(players, maxPlayers, ops[0]), maxPlayers, ops[1..])
  }

  lemma {:induction false} ApplyAppend<V>(players: map<string, V>, maxPlayers: int, a: seq<Op<V>>, b: seq<Op<V>>)
    ensures Apply(players, maxPlayers, a + b) == Apply(Apply(players, maxPlayers, a), maxPlayers, b)
    decreases |a|
  {
    if a != [] {
      assert (a + b)[0] == a[0] && (a + b)[1..] == a[1..] + b;
      ApplyAppend(Step(players, maxPlayers, a[0]), maxPlayers, a[1..], b);
    } else {
      assert a + b == b;
    }
  }

  /** No interleaving of admissions and removals takes the registry past its capacity. */
  lemma {:induction false} ApplyWithinCapacity<V>(players: map<string, V>, maxPlayers: int, ops: seq<Op<V>>)
    requires |players| <= Capacity(maxPlayers)
    ensures |Apply(players, maxPlayers, ops)| <= Capacity(maxPlayers)
    decreases |ops|
  {
    if ops != [] {
      ApplyWithinCapacity(Step(players, maxPlayers, ops[0]), maxPlayers, ops[1..]);
    }
  }

  /** Operations on other ids leave an entry exactly as it was. */
  lemma {:induction false} ApplyUntouched<V>(players: map<string, V>, maxPlayers: int, ops: seq<Op<V>>, k: string)
    requires forall i :: 0 <= i < |ops| ==> ops[i].id != k
    ensures k in Apply(players, maxPlayers, ops) <==> k in players
    ensures k in players ==> Apply(players, maxPlayers, ops)[k] == players[k]
    decreases |ops|
  {
    if ops != [] {
      ApplyUntouched(Step(players, maxPlayers, ops[0]), maxPlayers, ops[1..], k);
    }
  }

  /** An id whose last operation is a removal is absent at the end. */
  lemma RemovedStaysOut<V>(players: map<string, V>, maxPlayers: int, pre: seq<Op<V>>, post: seq<Op<V>>, k: string)
    requires forall i :: 0 <= i < |post| ==> post[i].id != k
    ensures k !in Apply(players, maxPlayers, pre + [RemoveOp(k)] + post)
  {
    ApplyAppend(players, maxPlayers, pre + [RemoveOp(k)], post);
    ApplyAppend(players, maxPlayers, pre, [RemoveOp(k)]);
    ApplyUntouched(Apply(players, maxPlayers, pre + [RemoveOp(k)]), maxPlayers, post, k);
  }

  /** An id whose last operation is an admission that was not refused is present, bound to the admitted value. */
  lemma AdmittedStaysIn<V>(players: map<string, V>, maxPlayers: int, pre: seq<Op<V>>, v: V, post: seq<Op<V>>, k: string)
    requires !Full(Apply(players, maxPlayers, pre), maxPlayers)
    requires forall i :: 0 <= i < |post| ==> post[i].id != k
    ensures k in Apply(players, maxPlayers, pre + [AdmitOp(k, v)] + post)
    ensures Apply(players, maxPlayers, pre + [AdmitOp(k, v)] + post)[k] == v
  {
    var mid := Apply(players, maxPlayers, pre);
    ApplyAppend(players, maxPlayers, pre + [AdmitOp(k, v)], post);
    ApplyAppend(players, maxPlayers, pre, [AdmitOp(k, v)]);
    assert Apply(mid, maxPlayers, [AdmitOp(k, v)]) == Step(mid, maxPlayers, AdmitOp(k, v));
    ApplyUntouched(Apply(players, maxPlayers, pre + [AdmitOp(k, v)]), maxPlayers, post, k);
  }

  /** Every member at the end was a member at the start or was admitted by some operation. */
  lemma {:induction false} NoPhantomMembers<V>(players: map<string, V>, maxPlayers: int, ops: seq<Op<V>>, k: string)
    requires k in Apply(players, maxPlayers, ops)
    ensures k in players || exists i :: 0 <= i < |ops| && ops[i].AdmitOp? && ops[i].id == k
    decreases |ops|
  {
    if ops != [] {
      var next := Step(players, maxPlayers, ops[0]);
      NoPhantomMembers(next, maxPlayers, ops[1..], k);
      if k !in next {
        var i :| 0 <= i < |ops[1..]| && ops[1..][i].AdmitOp? && ops[1..][i].id == k;
        assert ops[i + 1] == ops[1..][i];
      }
    }
  }

  /** The ids of `ops` are all different and none is in `ids`. */
  predicate FreshAdmissions<V>(ops: seq<Op<V>>, ids: set<string>) {
    (forall i :: 0 <= i < |ops| ==> ops[i].AdmitOp? && ops[i].id !in ids) &&
    (forall i, j :: 0 <= i < j < |ops| ==> ops[i].id != ops[j].id)
  }

  /**
   * Admitting new, distinct ids one after another fills the registry up to
   * its capacity exactly: the first `Capacity(maxPlayers)` are admitted and
   * every later one is refused, so the size stops at the maximum.
   */
  lemma {:induction false} AdmitUntilFull<V>(maxPlayers: int, ops: seq<Op<V>>)
    requires FreshAdmissions(ops, {})
    ensures var final := Apply(map[], maxPlayers, ops);
      && |final| == (if |ops| <= Capacity(maxPlayers) then |ops| else Capacity(maxPlayers))
      && forall i :: 0 <= i < |ops| ==> (ops[i].id in final <==> i < Capacity(maxPlayers))
    decreases |ops|
  {
    if ops != [] {
      var n := |ops| - 1;
      var pre, last := ops[..n], ops[n];
      assert ops == pre + [last];
      assert FreshAdmissions(pre, {});
      AdmitUntilFull(maxPlayers, pre);
      ApplyAppend(map[], maxPlayers, pre, [last]);
      var mid := Apply(map[], maxPlayers, pre);
      assert last.id !in mid by {
        if last.id in mid {
          NoPhantomMembers(map[], maxPlayers, pre, last.id);
        }
      }
      assert Apply(mid, maxPlayers, [last]) == Step(mid, maxPlayers, last);
    }
  }

  /** The order in which a loop over a map visits it: each id of `ids` exactly once. */
  predicate Enumerates(order: seq<string>, ids: set<string>) {
    (forall i :: 0 <= i < |order| ==> order[i] in ids) &&
    (forall k :: k in ids ==> k in order) &&
    (forall i, j :: 0 <= i < j < |order| ==> order[i] != order[j])
  }

  /** A loop that visits every id exactly once makes as many steps as there are ids. */
  lemma {:induction false} EnumerationSize(order: seq<string>, ids: set<string>)
    requires Enumerates(order, ids)
    ensures |order| == |ids|
    decreases |order|
  {
    if order != [] {
      var n := |order| - 1;
      var last := order[n];
      assert Enumerates(order[..n], ids - {last}) by {
        forall k | k in ids - {last} ensures k in order[..n] {
          var i :| 0 <= i < |order| && order[i] == k;
          assert i < n;
        }
      }
      EnumerationSize(order[..n], ids - {last});
    }
  }
}
