/**
  The chain of responsibility behind `Cell._call_objects` (cells.py): the
  things in a cell are asked in turn, each receiving the reward the previous
  one answered, until one answers DONE.
*/
module GridChain {
  import opened Wrappers
  import opened GridCore

  /** A reward; None is Python's None, "no explicit reward". */
  type Reward = Option<real>

  /** What every behaviour answers: an outcome and a reward. */
  type Response = (Outcome, Reward)

  /** `reward_map.get(key, default)`. */
  function Lookup(m: map<string, real>, key: string, default: Reward): Reward {
    if key in m then Some(m[key]) else default
  }

  /** The answer of asking `ts` in order, threading the reward, stopping at the first DONE. */
  function Chain<T>(b: (T, Reward) -> Response, ts: seq<T>, r: Reward): Response
    decreases |ts|
  {
    if ts == [] then (NotDone, r)
    else
      var (o, r') := b(ts[0], r);
      if o == Done then (Done, r') else Chain(b, ts[1..], r')
  }

  /** The members `_call_objects` asks: all but the skipped target and the cell's agent, in order. */
  function Visits<T(==)>(inventory: seq<T>, skip: Option<T>, agent: Option<T>): seq<T> {
    if inventory == [] then []
    else
      var rest := Visits(inventory[1..], skip, agent);
      if Some(inventory[0]) != skip && Some(inventory[0]) != agent then [inventory[0]] + rest else rest
  }

  /** The things asked are exactly the inventory's members other than the skipped one and the cell's agent. */
  lemma {:induction false} VisitsMembers<T>(inventory: seq<T>, skip: Option<T>, agent: Option<T>)
    ensures var vs := Visits(inventory, skip, agent);
      && (forall i :: 0 <= i < |vs| ==> vs[i] in inventory && Some(vs[i]) != skip && Some(vs[i]) != agent)
      && (forall i :: 0 <= i < |inventory| && Some(inventory[i]) != skip && Some(inventory[i]) != agent ==> inventory[i] in vs)
      && |vs| <= |inventory|
    decreases |inventory|
  {
    if inventory != [] {
      VisitsMembers(inventory[1..], skip, agent);
      var vs := Visits(inventory, skip, agent);
      forall i | 0 <= i < |inventory| && Some(inventory[i]) != skip && Some(inventory[i]) != agent
        ensures inventory[i] in vs
      {
        if i > 0 {
          assert inventory[i] == inventory[1..][i - 1];
        }
      }
    }
  }

  /** Asking from position k on: the member there is asked only if it passes the filter. */
  lemma VisitsStep<T>(b: (T, Reward) -> Response, inventory: seq<T>, k: nat, skip: Option<T>, agent: Option<T>, r: Reward)
    requires k < |inventory|
    ensures var rest := Visits(inventory[k + 1..], skip, agent);
      Chain(b, Visits(inventory[k..], skip, agent), r) ==
        if Some(inventory[k]) != skip && Some(inventory[k]) != agent then
          (var a := b(inventory[k], r); if a.0 == Done then a else Chain(b, rest, a.1))
        else Chain(b, rest, r)
  {
    assert inventory[k..][0] == inventory[k] && inventory[k..][1..] == inventory[k + 1..];
  }

  /** The members asked keep their order in the inventory. */
  lemma {:induction false} VisitsIsSubsequence<T>(inventory: seq<T>, skip: Option<T>, agent: Option<T>, extra: T)
    requires Some(extra) != skip && Some(extra) != agent
    ensures Visits(inventory + [extra], skip, agent) == Visits(inventory, skip, agent) + [extra]
    decreases |inventory|
  {
    if inventory == [] {
      assert Visits([extra], skip, agent) == [extra] + Visits([], skip, agent);
    } else {
      assert (inventory + [extra])[1..] == inventory[1..] + [extra];
      VisitsIsSubsequence(inventory[1..], skip, agent, extra);
    }
  }

  /** One more member at the end is asked only when the chain so far did not stop. */
  lemma {:induction false} ChainAppend<T>(b: (T, Reward) -> Response, ts: seq<T>, t: T, r: Reward)
    ensures var c := Chain(b, ts, r);
      Chain(b, ts + [t], r) == (if c.0 == Done then c else b(t, c.1))
    decreases |ts|
  {
    if ts == [] {
      assert [t][1..] == [];
    } else {
      var (o, r') := b(ts[0], r);
      assert (ts + [t])[0] == ts[0] && (ts + [t])[1..] == ts[1..] + [t];
      if o != Done {
        ChainAppend(b, ts[1..], t, r');
      }
    }
  }

  /** A chain that stopped is not extended: later members are never asked. */
  lemma {:induction false} ChainStopsAtDone<T>(b: (T, Reward) -> Response, ts: seq<T>, more: seq<T>, r: Reward)
    requires Chain(b, ts, r).0 == Done
    ensures Chain(b, ts + more, r) == Chain(b, ts, r)
    decreases |ts|
  {
    var (o, r') := b(ts[0], r);
    assert (ts + more)[0] == ts[0] && (ts + more)[1..] == ts[1..] + more;
    if o != Done {
      ChainStopsAtDone(b, ts[1..], more, r');
    }
  }

  /** A chain answers DONE exactly when one of its members does, with the reward threaded so far. */
  lemma {:induction false} ChainDoneFromMember<T>(b: (T, Reward) -> Response, ts: seq<T>, r: Reward)
    ensures Chain(b, ts, r).0 == Done <==>
      exists k :: 0 <= k < |ts| && b(ts[k], Chain(b, ts[..k], r).1).0 == Done
    decreases |ts|
  {
    if ts != [] {
      var (o, r') := b(ts[0], r);
      assert ts[..0] == [];
      if o == Done {
        assert b(ts[0], Chain(b, ts[..0], r).1).0 == Done;
      } else {
        ChainDoneFromMember(b, ts[1..], r');
        forall k | 1 <= k <= |ts[1..]|
          ensures Chain(b, ts[..k], r) == Chain(b, ts[1..][..k - 1], r')
        {
          assert ts[..k] == [ts[0]] + ts[1..][..k - 1];
          assert ts[..k][0] == ts[0] && ts[..k][1..] == ts[1..][..k - 1];
        }
        if Chain(b, ts, r).0 == Done {
          var k :| 0 <= k < |ts[1..]| && b(ts[1..][k], Chain(b, ts[1..][..k], r').1).0 == Done;
          assert b(ts[k + 1], Chain(b, ts[..k + 1], r).1).0 == Done;
        }
        if exists k :: 0 <= k < |ts| && b(ts[k], Chain(b, ts[..k], r).1).0 == Done {
          var k :| 0 <= k < |ts| && b(ts[k], Chain(b, ts[..k], r).1).0 == Done;
          assert k != 0;
          assert b(ts[1..][k - 1], Chain(b, ts[1..][..k - 1], r').1).0 == Done;
        }
      }
    }
  }

  /** Members that never act leave the chain answering NOT_DONE with the initial reward. */
  lemma {:induction false} ChainPassThrough<T>(b: (T, Reward) -> Response, ts: seq<T>, r: Reward)
    requires forall t, r0 :: t in ts ==> b(t, r0) == (NotDone, r0)
    ensures Chain(b, ts, r) == (NotDone, r)
    decreases |ts|
  {
    if ts != [] {
      assert ts[0] in ts;
      assert forall t :: t in ts[1..] ==> t in ts;
      ChainPassThrough(b, ts[1..], r);
    }
  }
}
