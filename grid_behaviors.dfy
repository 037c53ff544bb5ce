/**
  The agent's action table (agent.py): action numbers index a tuple of
  behaviours that must line up with the tuple of behaviour names.
*/
module GridBehaviors {
  import opened Wrappers
  import opened GridCore

  /** The eleven things an agent can do. */
  datatype Behavior = WaitB | MoveB(dir: Direction) | GetB | DropB | PushB(dir: Direction)

  /** The name a behaviour is listed under, also its key in the reward map. */
  function BehaviorName(b: Behavior): string {
    match b
    case WaitB => "WAIT"
    case MoveB(d) => "MOVE_" + d.Name()
    case GetB => "GET"
    case DropB => "DROP"
    case PushB(d) => "PUSH_" + d.Name()
  }

  /** `BEHAVIOR_NAMES`. */
  const BehaviorNames: seq<string> :=
    ["WAIT", "MOVE_NORTH", "MOVE_EAST", "MOVE_SOUTH", "MOVE_WEST", "GET", "DROP",
     "PUSH_NORTH", "PUSH_EAST", "PUSH_SOUTH", "PUSH_WEST"]

  /** `_BEHAVIOR`, in the order of the names. */
  const BehaviorTable: seq<Behavior> :=
    [WaitB, MoveB(North), MoveB(East), MoveB(South), MoveB(West), GetB, DropB,
     PushB(North), PushB(East), PushB(South), PushB(West)]

  /** `_BEHAVIOR` as written: move_south is listed before move_east. */
  const BehaviorTableAsWritten: seq<Behavior> :=
    [WaitB, MoveB(North), MoveB(South), MoveB(East), MoveB(West), GetB, DropB,
     PushB(North), PushB(East), PushB(South), PushB(West)]

  /** `dict(zip(names, behaviours))`: pairs up to the shorter length; a later pair overwrites an earlier key. */
  function Zip(ks: seq<string>, vs: seq<Behavior>): (m: map<string, Behavior>)
    ensures forall i :: 0 <= i < |ks| && i < |vs| ==> ks[i] in m
    ensures forall k :: k in m ==> exists i :: 0 <= i < |ks| && i < |vs| && ks[i] == k
    decreases |ks|
  {
    if ks == [] || vs == [] then map[]
    else
      var rest := Zip(ks[1..], vs[1..]);
      assert forall k :: k in rest ==> exists i :: 1 <= i < |ks| && i < |vs| && ks[i] == k by {
        forall k | k in rest
          ensures exists i :: 1 <= i < |ks| && i < |vs| && ks[i] == k
        {
          var j :| 0 <= j < |ks[1..]| && j < |vs[1..]| && ks[1..][j] == k;
          assert ks[j + 1] == k;
        }
      }
      map[ks[0] := vs[0]] + rest
  }

  /** With distinct keys, each key maps to the behaviour at its own position. */
  lemma {:induction false} ZipDistinct(ks: seq<string>, vs: seq<Behavior>, i: nat)
    requires |ks| == |vs| && i < |ks|
    requires forall a, b :: 0 <= a < b < |ks| ==> ks[a] != ks[b]
    ensures ks[i] in Zip(ks, vs) && Zip(ks, vs)[ks[i]] == vs[i]
    decreases |ks|
  {
    if i > 0 {
      assert forall a, b :: 0 <= a < b < |ks[1..]| ==> ks[1..][a] == ks[a + 1] && ks[1..][b] == ks[b + 1];
      ZipDistinct(ks[1..], vs[1..], i - 1);
      assert ks[1..][i - 1] == ks[i];
    }
  }

  /** `_BEHAVIOR_MAP`. */
  function BehaviorMap(): map<string, Behavior> { Zip(BehaviorNames, BehaviorTable) }

  /** The tuple index an action number selects; Python counts a negative index from the end. */
  function ActionIndex(action: int): (i: Option<nat>)
    ensures i.Some? <==> -|BehaviorTable| <= action < |BehaviorTable|
    ensures i.Some? ==> i.value < |BehaviorTable| && i.value % |BehaviorTable| == action % |BehaviorTable|
  {
    if 0 <= action < |BehaviorTable| then Some(action)
    else if -|BehaviorTable| <= action < 0 then Some(action + |BehaviorTable|)
    else None
  }

  /** Every entry of the table is the behaviour its name announces, and no name repeats. */
  lemma TableMatchesNames()
    ensures |BehaviorTable| == |BehaviorNames| == 11
    ensures forall i :: 0 <= i < |BehaviorTable| ==> BehaviorName(BehaviorTable[i]) == BehaviorNames[i]
    ensures forall i, j :: 0 <= i < j < |BehaviorNames| ==> BehaviorNames[i] != BehaviorNames[j]
  {
  }

  /** As written, the action numbered for MOVE_EAST runs move_south, and the map agrees with the wrong table. */
  lemma TableAsWrittenMismatch()
    ensures |BehaviorTableAsWritten| == |BehaviorNames|
    ensures BehaviorNames[2] == "MOVE_EAST" && BehaviorTableAsWritten[2] == MoveB(South)
    ensures BehaviorName(BehaviorTableAsWritten[2]) != BehaviorNames[2]
    ensures Zip(BehaviorNames, BehaviorTableAsWritten)["MOVE_EAST"] == MoveB(South)
  {
    ZipDistinct(BehaviorNames, BehaviorTableAsWritten, 2);
  }

  /** Corrected: looking an action up by name gives the behaviour that name announces. */
  lemma MapDispatchesByName()
    ensures forall i :: 0 <= i < |BehaviorNames| ==>
      BehaviorNames[i] in BehaviorMap() && BehaviorName(BehaviorMap()[BehaviorNames[i]]) == BehaviorNames[i]
  {
    TableMatchesNames();
    forall i | 0 <= i < |BehaviorNames|
      ensures BehaviorNames[i] in BehaviorMap() && BehaviorName(BehaviorMap()[BehaviorNames[i]]) == BehaviorNames[i]
    {
      ZipDistinct(BehaviorNames, BehaviorTable, i);
    }
  }
}
