/**
  The things of the generic grid world and how they interact: objects
  (objects.py), cells holding an inventory with agent, portable and movable
  slots (cells.py), and the agent that acts on them (agent.py).

  Each behaviour of a thing answers an outcome and a reward; a cell asks the
  things it holds in turn (a chain of responsibility) before doing the default
  work itself.  The behaviours objects implement are a parameter of the model
  (`Behaviors`): the library's base objects are `Defaults`, an application's
  subclasses are any other value.
*/
module GridWorld {
  import opened Wrappers
  import opened GridCore
  import opened Grids
  import opened GridChain
  import opened GridBehaviors

  /** The exceptions the operations can raise. */
  datatype GridError =
    | CellInCell        // `_put_cell`'s ValueError
    | PortableOccupied  // a second portable object put in one cell
    | MovableOccupied   // a second movable object put in one cell
    | NotInInventory    // `list.remove` of a thing the cell does not hold
    | NoRemove          // removing from a container that is not a cell
    | NoSuchAction      // an action number past the end of the table

  /** Anything `Cell.put` accepts.  There are no actors other than agents in the library. */
  datatype Thing = AgentThing(agent: Agent) | ObjectThing(obj: Object) | CellThing(cell: Cell) {
    function Type(): ThingType {
      match this
      case AgentThing(_) => AgentType
      case ObjectThing(_) => ObjectType
      case CellThing(_) => CellType
    }
  }

  /** Where an object is: in a cell, carried by an agent, or nowhere (Python's None). */
  datatype Container = Nowhere | InCell(cell: Cell) | HeldBy(holder: Agent)

  /** The heap objects a thing's `container` is read from. */
  function Footprint(t: Thing): set<object> {
    match t
    case AgentThing(a) => {a}
    case ObjectThing(o) => {o}
    case CellThing(_) => {}
  }

  function ObjectSet(o: Option<Object>): set<object> {
    if o.Some? then {o.value} else {}
  }

  function CellSet(c: Container): set<object> {
    if c.InCell? then {c.cell} else {}
  }

  // ---------------------------------------------------------------------
  // The contents of a cell, as a value, and what put and remove do to it
  // ---------------------------------------------------------------------

  /** A cell's inventory and its three slots. */
  datatype Slots = Slots(inventory: seq<Thing>, agent: Option<Agent>, portable: Option<Object>, movable: Option<Object>)

  /** Every slot names a thing of the right kind that the inventory holds. */
  predicate SlotsValid(s: Slots) {
    && (s.agent.Some? ==> AgentThing(s.agent.value) in s.inventory)
    && (s.portable.Some? ==> ObjectThing(s.portable.value) in s.inventory && s.portable.value.isPortable)
    && (s.movable.Some? ==> ObjectThing(s.movable.value) in s.inventory && s.movable.value.isMovable)
  }

  /** `list.remove`: drops the first element equal to `x`. */
  function RemoveFirst(xs: seq<Thing>, x: Thing): (r: seq<Thing>)
    ensures x !in xs ==> r == xs
    ensures x in xs ==> |r| == |xs| - 1 && multiset(r) == multiset(xs) - multiset{x}
  {
    if xs == [] then []
    else
      assert xs == [xs[0]] + xs[1..];
      if xs[0] == x then xs[1..] else [xs[0]] + RemoveFirst(xs[1..], x)
  }

  /** Removing the one occurrence just appended gives back the original sequence. */
  lemma {:induction false} RemoveFirstAppended(xs: seq<Thing>, x: Thing)
    requires x !in xs
    ensures RemoveFirst(xs + [x], x) == xs
    decreases |xs|
  {
    if xs == [] {
      assert [x][1..] == [];
    } else {
      assert (xs + [x])[0] == xs[0] && (xs + [x])[1..] == xs[1..] + [x];
      RemoveFirstAppended(xs[1..], x);
      assert xs == [xs[0]] + xs[1..];
    }
  }

  /** The slots holding `t` are emptied; the others are kept. */
  function ClearSlots(s: Slots, t: Thing): Slots {
    s.(agent := if s.agent.Some? && AgentThing(s.agent.value) == t then None else s.agent,
       portable := if s.portable.Some? && ObjectThing(s.portable.value) == t then None else s.portable,
       movable := if s.movable.Some? && ObjectThing(s.movable.value) == t then None else s.movable)
  }

  /**
    `Cell.remove`: nothing happens unless the thing says the cell is its
    container; otherwise its slots are emptied and then it is taken out of
    the inventory, raising when the inventory does not hold it.
  */
  function RemoveSpec(s: Slots, t: Thing, here: bool): (Slots, Option<GridError>) {
    if !here then (s, None)
    else
      var c := ClearSlots(s, t);
      if t in s.inventory then (c.(inventory := RemoveFirst(s.inventory, t)), None)
      else (c, Some(NotInInventory))
  }

  /** `_put_agent`: unless the agent is already in this cell, it takes the agent slot and joins the inventory. */
  function PutAgentSpec(s: Slots, a: Agent, here: bool): Slots {
    if here then s else s.(agent := Some(a), inventory := s.inventory + [AgentThing(a)])
  }

  /**
    `_put_object`, checking both slots before changing anything: an object
    already in the cell is ignored, a portable (movable) object needs the
    portable (movable) slot free and takes it, and the object joins the inventory.
  */
  function PutObjectSpec(s: Slots, o: Object, here: bool): (Slots, Option<GridError>) {
    if here then (s, None)
    else if o.isPortable && s.portable.Some? then (s, Some(PortableOccupied))
    else if o.isMovable && s.movable.Some? then (s, Some(MovableOccupied))
    else
      (s.(portable := if o.isPortable then Some(o) else s.portable,
          movable := if o.isMovable then Some(o) else s.movable,
          inventory := s.inventory + [ObjectThing(o)]), None)
  }

  /** `_put_object` as written: the portable slot is taken before the movable slot is checked. */
  function PutObjectAsWritten(s: Slots, o: Object, here: bool): (Slots, Option<GridError>) {
    if here then (s, None)
    else if o.isPortable && s.portable.Some? then (s, Some(PortableOccupied))
    else
      var s1 := if o.isPortable then s.(portable := Some(o)) else s;
      if o.isMovable && s1.movable.Some? then (s1, Some(MovableOccupied))
      else
        (s1.(movable := if o.isMovable then Some(o) else s1.movable,
             inventory := s1.inventory + [ObjectThing(o)]), None)
  }

  /** `Cell.put`, dispatching on the thing's type. */
  function PutSpec(s: Slots, t: Thing, here: bool): (Slots, Option<GridError>) {
    match t
    case AgentThing(a) => (PutAgentSpec(s, a, here), None)
    case ObjectThing(o) => PutObjectSpec(s, o, here)
    case CellThing(_) => (s, Some(CellInCell))
  }

  /** Removing keeps every slot pointing into the inventory. */
  lemma RemoveKeepsValid(s: Slots, t: Thing, here: bool)
    requires SlotsValid(s)
    ensures SlotsValid(RemoveSpec(s, t, here).0)
  {
    if here && t in s.inventory {
      var r := RemoveFirst(s.inventory, t);
      forall u | u in s.inventory && u != t
        ensures u in r
      {
        assert u in multiset(s.inventory);
        assert multiset(r)[u] == multiset(s.inventory)[u];
      }
    }
  }

  /** Removing takes out exactly one copy of the thing, empties its slots, and touches nothing else. */
  lemma RemoveTakesOnlyThat(s: Slots, t: Thing)
    ensures var (r, e) := RemoveSpec(s, t, true);
      && (e.None? <==> t in s.inventory)
      && (e.None? ==> multiset(r.inventory) == multiset(s.inventory) - multiset{t})
      && (e.Some? ==> r.inventory == s.inventory)
      && (r.agent.Some? ==> AgentThing(r.agent.value) != t && r.agent == s.agent)
      && (r.portable.Some? ==> ObjectThing(r.portable.value) != t && r.portable == s.portable)
      && (r.movable.Some? ==> ObjectThing(r.movable.value) != t && r.movable == s.movable)
      && (s.agent.Some? && AgentThing(s.agent.value) != t ==> r.agent == s.agent)
      && (s.portable.Some? && ObjectThing(s.portable.value) != t ==> r.portable == s.portable)
      && (s.movable.Some? && ObjectThing(s.movable.value) != t ==> r.movable == s.movable)
  {
  }

  /** A put either fails leaving the cell as it was, or keeps every slot pointing into the inventory. */
  lemma PutKeepsValid(s: Slots, t: Thing, here: bool)
    requires SlotsValid(s)
    ensures var (r, e) := PutSpec(s, t, here);
      SlotsValid(r) && (e.Some? ==> r == s)
  {
  }

  /** A put that was refused changes nothing; an accepted object is held exactly once more. */
  lemma PutObjectOutcome(s: Slots, o: Object)
    ensures var (r, e) := PutObjectSpec(s, o, false);
      && (e == Some(PortableOccupied) <==> o.isPortable && s.portable.Some?)
      && (e == Some(MovableOccupied) <==> !(o.isPortable && s.portable.Some?) && o.isMovable && s.movable.Some?)
      && (e.Some? ==> r == s)
      && (e.None? ==> multiset(r.inventory) == multiset(s.inventory) + multiset{ObjectThing(o)})
      && (e.None? && o.isPortable ==> r.portable == Some(o))
      && (e.None? && o.isMovable ==> r.movable == Some(o))
  {
  }

  /** Putting an object into a cell and removing it again restores the cell. */
  lemma PutThenRemoveObject(s: Slots, o: Object)
    requires SlotsValid(s) && ObjectThing(o) !in s.inventory
    requires PutObjectSpec(s, o, false).1.None?
    ensures RemoveSpec(PutObjectSpec(s, o, false).0, ObjectThing(o), true) == (s, None)
  {
    RemoveFirstAppended(s.inventory, ObjectThing(o));
  }

  /** Putting an agent into a cell without one and removing it again restores the cell. */
  lemma PutThenRemoveAgent(s: Slots, a: Agent)
    requires SlotsValid(s) && AgentThing(a) !in s.inventory && s.agent.None?
    ensures RemoveSpec(PutAgentSpec(s, a, false), AgentThing(a), true) == (s, None)
  {
    RemoveFirstAppended(s.inventory, AgentThing(a));
  }

  /** As written, a portable and movable object refused for the movable slot still occupies the portable slot. */
  lemma PutObjectAsWrittenBreaksSlots(s: Slots, o: Object, m: Object)
    requires o.isPortable && o.isMovable
    requires s.portable.None? && s.movable == Some(m) && ObjectThing(o) !in s.inventory
    ensures var (r, e) := PutObjectAsWritten(s, o, false);
      e == Some(MovableOccupied) && r.portable == Some(o) && !SlotsValid(r)
  {
  }

  /** Wherever the as-written put succeeds, or fails on the portable slot, it agrees with the corrected one. */
  lemma PutObjectAsWrittenAgrees(s: Slots, o: Object, here: bool)
    requires PutObjectAsWritten(s, o, here).1 != Some(MovableOccupied)
    ensures PutObjectAsWritten(s, o, here) == PutObjectSpec(s, o, here)
  {
  }

  // ---------------------------------------------------------------------
  // Behaviours
  // ---------------------------------------------------------------------

  /**
    The behaviours a cell asks the things it holds for: `wait_actor`,
    `exit_thing`, `enter_thing`, `get` and `drop`, each given the thing asked,
    the reward so far, and the call's own arguments.
  */
  datatype Behaviors = Behaviors(
    waitActor: (Thing, Reward, Agent) -> Response,
    exitThing: (Thing, Reward, Agent, Direction) -> Response,
    enterThing: (Thing, Reward, Agent, Cell, Direction) -> Response,
    getThing: (Thing, Reward, Agent, Object) -> Response,
    dropThing: (Thing, Reward, Agent, Object) -> Response)

  function WaitBehavior(bs: Behaviors, actor: Agent): (Thing, Reward) -> Response {
    (t, r) => bs.waitActor(t, r, actor)
  }

  function ExitBehavior(bs: Behaviors, actor: Agent, d: Direction): (Thing, Reward) -> Response {
    (t, r) => bs.exitThing(t, r, actor, d)
  }

  function EnterBehavior(bs: Behaviors, actor: Agent, origin: Cell, d: Direction): (Thing, Reward) -> Response {
    (t, r) => bs.enterThing(t, r, actor, origin, d)
  }

  function GetBehavior(bs: Behaviors, actor: Agent, target: Object): (Thing, Reward) -> Response {
    (t, r) => bs.getThing(t, r, actor, target)
  }

  function DropBehavior(bs: Behaviors, actor: Agent, target: Object): (Thing, Reward) -> Response {
    (t, r) => bs.dropThing(t, r, actor, target)
  }

  /** The base `Object` behaviours; a thing that is not an object lets the call pass. */
  function Defaults(m: map<string, real>): Behaviors {
    Behaviors(
      (t: Thing, r: Reward, a: Agent) =>
        if t.ObjectThing? then t.obj.WaitActor(r, a) else (NotDone, r),
      (t: Thing, r: Reward, a: Agent, d: Direction) =>
        if t.ObjectThing? then t.obj.ExitThing(r, a, d) else (NotDone, r),
      (t: Thing, r: Reward, a: Agent, origin: Cell, d: Direction) =>
        if t.ObjectThing? then t.obj.EnterThing(r, a, origin, d) else (NotDone, r),
      (t: Thing, r: Reward, a: Agent, target: Object) =>
        if t.ObjectThing? then t.obj.Get(m, r, a, target) else (NotDone, r),
      (t: Thing, r: Reward, a: Agent, target: Object) =>
        if t.ObjectThing? then t.obj.Drop(r, a, target) else (NotDone, r))
  }

  /** A base object never stops a chain while an actor waits, leaves or enters. */
  lemma DefaultsPassThrough(m: map<string, real>, t: Thing, r: Reward, a: Agent, origin: Cell, d: Direction)
    ensures Defaults(m).waitActor(t, r, a) == (NotDone, r)
    ensures Defaults(m).exitThing(t, r, a, d) == (NotDone, r)
    ensures Defaults(m).enterThing(t, r, a, origin, d) == (NotDone, r)
  {
  }

  /** A base object never stops a get or a drop; it only sets the reward for getting itself. */
  lemma DefaultsTargetPassThrough(m: map<string, real>, t: Thing, r: Reward, a: Agent, target: Object)
    ensures Defaults(m).dropThing(t, r, a, target) == (NotDone, r)
    ensures t != ObjectThing(target) ==> Defaults(m).getThing(t, r, a, target) == (NotDone, r)
    ensures Defaults(m).getThing(ObjectThing(target), r, a, target)
      == (NotDone, Lookup(m, "GET:OBJECT[" + target.name + "]", Some(0.0)))
  {
  }

  /** The things a cell asks, given its inventory: all but the skipped one and the cell's own agent. */
  function Asked(s: Slots, skip: Option<Thing>): seq<Thing> {
    Visits(s.inventory, skip, if s.agent.Some? then Some(AgentThing(s.agent.value)) else None)
  }

  /** With base objects, the chains a cell runs for waiting, leaving and entering pass the reward through. */
  lemma DefaultChainsPass(m: map<string, real>, s: Slots, r: Reward, a: Agent, origin: Cell, d: Direction)
    ensures Chain(WaitBehavior(Defaults(m), a), Asked(s, None), r) == (NotDone, r)
    ensures Chain(ExitBehavior(Defaults(m), a, d), Asked(s, None), r) == (NotDone, r)
    ensures Chain(EnterBehavior(Defaults(m), a, origin, d), Asked(s, None), r) == (NotDone, r)
  {
    var bs := Defaults(m);
    forall t, r0
      ensures WaitBehavior(bs, a)(t, r0) == (NotDone, r0) && ExitBehavior(bs, a, d)(t, r0) == (NotDone, r0)
              && EnterBehavior(bs, a, origin, d)(t, r0) == (NotDone, r0)
    {
      DefaultsPassThrough(m, t, r0, a, origin, d);
    }
    ChainPassThrough(WaitBehavior(bs, a), Asked(s, None), r);
    ChainPassThrough(ExitBehavior(bs, a, d), Asked(s, None), r);
    ChainPassThrough(EnterBehavior(bs, a, origin, d), Asked(s, None), r);
  }

  /** With base objects, the chains a cell runs for a get or a drop pass the reward through. */
  lemma DefaultTargetChainsPass(m: map<string, real>, s: Slots, r: Reward, a: Agent, target: Object)
    ensures Chain(GetBehavior(Defaults(m), a, target), Asked(s, Some(ObjectThing(target))), r) == (NotDone, r)
    ensures Chain(DropBehavior(Defaults(m), a, target), Asked(s, Some(ObjectThing(target))), r) == (NotDone, r)
  {
    var bs := Defaults(m);
    var vs := Asked(s, Some(ObjectThing(target)));
    VisitsMembers(s.inventory, Some(ObjectThing(target)), if s.agent.Some? then Some(AgentThing(s.agent.value)) else None);
    forall t, r0 | t in vs
      ensures GetBehavior(bs, a, target)(t, r0) == (NotDone, r0) && DropBehavior(bs, a, target)(t, r0) == (NotDone, r0)
    {
      var i :| 0 <= i < |vs| && vs[i] == t;
      DefaultsTargetPassThrough(m, t, r0, a, target);
    }
    ChainPassThrough(GetBehavior(bs, a, target), vs, r);
    ChainPassThrough(DropBehavior(bs, a, target), vs, r);
  }

  // ---------------------------------------------------------------------
  // Objects
  // ---------------------------------------------------------------------

  class Object {
    const name: string
    const isPortable: bool
    const isMovable: bool
    const isVisible: bool
    var container: Container

    constructor (name: string, container: Container, isPortable: bool := false, isMovable: bool := false, isVisible: bool := true)
      ensures this.name == name && this.container == container
      ensures this.isPortable == isPortable && this.isMovable == isMovable && this.isVisible == isVisible
    {
      this.name := name;
      this.container := container;
      this.isPortable := isPortable;
      this.isMovable := isMovable;
      this.isVisible := isVisible;
    }

    function Type(): ThingType { ObjectType }

    /**
      The cell the object is in, directly or in its holder's hands; None when
      it is nowhere.  As written, `cell` reads `container.cell`, which a cell
      does not have; an object lying in a cell is taken to be in that cell.
    */
    function CellOf(): Option<Cell>
      reads this, if container.HeldBy? then {container.holder} else {}
    {
      match container
      case Nowhere => None
      case InCell(c) => Some(c)
      case HeldBy(a) => Some(a.cell)
    }

    /** The container's x coordinate. */
    function X(): Option<int>
      reads this
    {
      match container
      case Nowhere => None
      case InCell(c) => Some(c.x)
      case HeldBy(a) => Some(a.x)
    }

    /** The container's y coordinate. */
    function Y(): Option<int>
      reads this
    {
      match container
      case Nowhere => None
      case InCell(c) => Some(c.y)
      case HeldBy(a) => Some(a.y)
    }

    /** `at`: whether the object's container stands at (x, y).  As written it reads fields `_x`, `_y` that objects lack. */
    predicate At(x: int, y: int)
      reads this
    {
      X() == Some(x) && Y() == Some(y)
    }

    function WaitActor(initial: Reward, actor: Agent): Response { (NotDone, initial) }

    function ExitThing(initial: Reward, thing: Agent, d: Direction): Response { (NotDone, initial) }

    function EnterThing(initial: Reward, thing: Agent, origin: Cell, d: Direction): Response { (NotDone, initial) }

    /** Being got sets the reward the map lists for getting this object by name. */
    function Get(m: map<string, real>, initial: Reward, actor: Agent, target: Object): Response {
      if target == this then (NotDone, Lookup(m, "GET:OBJECT[" + name + "]", Some(0.0)))
      else (NotDone, initial)
    }

    function Drop(initial: Reward, actor: Agent, target: Object): Response { (NotDone, initial) }

    function Push(initial: Reward, actor: Agent, target: Object, d: Direction): Response { (NotDone, initial) }

    method SetContainer(c: Container)
      modifies this
      ensures container == c
    {
      container := c;
    }
  }

  /** An object's cell and position follow its container, wherever that is. */
  lemma AtFollowsContainer(o: Object, x: int, y: int)
    ensures o.container.InCell? ==> o.CellOf() == Some(o.container.cell)
    ensures o.container.HeldBy? ==> o.CellOf() == Some(o.container.holder.cell)
    ensures o.container.Nowhere? <==> o.CellOf().None?
    ensures o.container.InCell? ==> (o.At(x, y) <==> o.container.cell.x == x && o.container.cell.y == y)
    ensures o.container.HeldBy? ==> (o.At(x, y) <==> o.container.holder.x == x && o.container.holder.y == y)
    ensures o.container.Nowhere? ==> !o.At(x, y)
  {
  }

  // ---------------------------------------------------------------------
  // Cells
  // ---------------------------------------------------------------------

  /** The objects among a cell's inventory, in order (`Cell.objects`). */
  function ObjectsOf(inv: seq<Thing>): (os: seq<Object>)
    ensures forall i :: 0 <= i < |os| ==> ObjectThing(os[i]) in inv
    ensures forall i :: 0 <= i < |inv| && inv[i].ObjectThing? ==> inv[i].obj in os
  {
    if inv == [] then []
    else (if inv[0].ObjectThing? then [inv[0].obj] else []) + ObjectsOf(inv[1..])
  }

  class Cell {
    const x: int
    const y: int
    var inventory: seq<Thing>
    var agent: Option<Agent>
    var portableObject: Option<Object>
    var movableObject: Option<Object>

    constructor (x: int, y: int)
      ensures this.x == x && this.y == y
      ensures Contents() == Slots([], None, None, None)
    {
      this.x := x;
      this.y := y;
      inventory := [];
      agent := None;
      portableObject := None;
      movableObject := None;
    }

    function Type(): ThingType { CellType }

    function Contents(): Slots
      reads this
    {
      Slots(inventory, agent, portableObject, movableObject)
    }

    predicate Valid()
      reads this
    {
      SlotsValid(Contents())
    }

    function Objects(): seq<Object>
      reads this
    {
      ObjectsOf(inventory)
    }

    /** `thing.container == self`.  A cell's own container is None, so a cell is never here. */
    predicate Here(t: Thing)
      reads Footprint(t)
    {
      match t
      case AgentThing(a) => a.cell == this
      case ObjectThing(o) => o.container == InCell(this)
      case CellThing(_) => false
    }

    /**
      `_call_objects`: ask the things held, in order, skipping `skip` and the
      cell's agent.  The source's filtering generator is malformed; it is
      modelled as the filter it evidently means.
    */
    method CallObjects(b: (Thing, Reward) -> Response, skip: Option<Thing>, initial: Reward) returns (r: Response)
      ensures r == Chain(b, Asked(Contents(), skip), initial)
    {
      var inv := inventory;
      var ag := if agent.Some? then Some(AgentThing(agent.value)) else None;
      assert inv[0..] == inv;
      var reward := initial;
      var k := 0;
      while k < |inv|
        invariant 0 <= k <= |inv|
        invariant Chain(b, Visits(inv, skip, ag), initial) == Chain(b, Visits(inv[k..], skip, ag), reward)
      {
        var t := inv[k];
        VisitsStep(b, inv, k, skip, ag, reward);
        if Some(t) != skip && Some(t) != ag {
          var answer := b(t, reward);
          reward := answer.1;
          if answer.0 == Done {
            return answer;
          }
        }
        k := k + 1;
      }
      assert inv[k..] == [];
      return (NotDone, reward);
    }

    method WaitActor(bs: Behaviors, initial: Reward, actor: Agent) returns (r: Response)
      ensures r == Chain(WaitBehavior(bs, actor), Asked(Contents(), None), initial)
    {
      r := CallObjects(WaitBehavior(bs, actor), None, initial);
    }

    /** Asks every thing but the target whether it lets the target be taken. */
    method Get(bs: Behaviors, initial: Reward, actor: Agent, target: Object) returns (r: Response)
      ensures r == Chain(GetBehavior(bs, actor, target), Asked(Contents(), Some(ObjectThing(target))), initial)
    {
      r := CallObjects(GetBehavior(bs, actor, target), Some(ObjectThing(target)), initial);
    }

    /** Asks every thing but the target whether it lets the target be dropped here. */
    method Drop(bs: Behaviors, initial: Reward, actor: Agent, target: Object) returns (r: Response)
      ensures r == Chain(DropBehavior(bs, actor, target), Asked(Contents(), Some(ObjectThing(target))), initial)
    {
      r := CallObjects(DropBehavior(bs, actor, target), Some(ObjectThing(target)), initial);
    }

    /**
      `put`, dispatching on the thing's type (the handler table is keyed with
      the misspelt `ThingType`).  The movable test calls the flag
      `obj.is_movable(self, obj)` as if it were a method; it is read as the
      flag.  Both slots are checked before either is taken; see
      `PutObjectAsWritten` for the order the source uses.
    */
    method Put(t: Thing) returns (err: Option<GridError>)
      modifies this
      ensures (Contents(), err) == PutSpec(old(Contents()), t, old(Here(t)))
      ensures old(Valid()) ==> Valid()
    {
      if Valid() {
        PutKeepsValid(Contents(), t, Here(t));
      }
      match t
      case AgentThing(a) =>
        if a.cell != this {
          agent := Some(a);
          inventory := inventory + [t];
        }
        err := None;
      case ObjectThing(o) =>
        if o.container == InCell(this) {
          return None;
        }
        if o.isPortable && portableObject.Some? {
          return Some(PortableOccupied);
        }
        if o.isMovable && movableObject.Some? {
          return Some(MovableOccupied);
        }
        if o.isPortable {
          portableObject := Some(o);
        }
        if o.isMovable {
          movableObject := Some(o);
        }
        inventory := inventory + [t];
        err := None;
      case CellThing(_) =>
        err := Some(CellInCell);
    }

    /** `remove`.  The per-type `_remove_*` helpers are unused and `_remove_object` is cut off; they are not modelled. */
    method Remove(t: Thing) returns (err: Option<GridError>)
      modifies this
      ensures (Contents(), err) == RemoveSpec(old(Contents()), t, old(Here(t)))
      ensures old(Valid()) ==> Valid()
    {
      if Valid() {
        RemoveKeepsValid(Contents(), t, Here(t));
      }
      if !Here(t) {
        return None;
      }
      if agent.Some? && AgentThing(agent.value) == t {
        agent := None;
      }
      if portableObject.Some? && ObjectThing(portableObject.value) == t {
        portableObject := None;
      }
      if movableObject.Some? && ObjectThing(movableObject.value) == t {
        movableObject := None;
      }
      if t in inventory {
        inventory := RemoveFirst(inventory, t);
        err := None;
      } else {
        err := Some(NotInInventory);
      }
    }

    /**
      `enter_actor`: unless a thing here stops it, the actor leaves the cell
      it is in and joins this one, and the call answers DONE with the reward
      it was given.  The source asks `Object.enter_actor`, which does not
      exist; the objects' `enter_thing` is asked instead.
    */
    method EnterActor(bs: Behaviors, initial: Reward, actor: Agent, origin: Cell, d: Direction)
      returns (r: Result<Response, GridError>)
      modifies this, actor, actor.cell
      ensures Entered(bs, this, initial, actor, origin, d, old(actor.cell), r)
    {
      var c := CallObjects(EnterBehavior(bs, actor, origin, d), None, initial);
      if c.0 == Done {
        return Success(c);
      }
      var oc := actor.cell;
      var e := oc.Remove(AgentThing(actor));
      if e.Some? {
        return Failure(e.value);
      }
      e := Put(AgentThing(actor));
      actor.SetCell(this);
      return Success((Done, initial));
    }

    /**
      `exit_actor`: unless a thing here stops it, the actor tries to enter the
      grid's cell one step in direction `d`, coming from the opposite side.
      The source asks `Object.exit_actor`, which does not exist; the objects'
      `exit_thing` is asked instead.
    */
    method ExitActor(bs: Behaviors, grid: Grid<Cell>, initial: Reward, actor: Agent, d: Direction)
      returns (r: Result<Response, GridError>)
      requires grid.Rectangular()
      modifies actor, actor.cell, NextCell(grid, d, x, y)
      ensures Exited(bs, grid, this, initial, actor, d, old(actor.cell), r)
    {
      var c := CallObjects(ExitBehavior(bs, actor, d), None, initial);
      if c.0 == Done {
        return Success(c);
      }
      var dest := NextCell(grid, d, x, y);
      r := dest.EnterActor(bs, c.1, actor, this, d.Opposite());
    }
  }

  /**
    What `dest.enter_actor(.., actor, origin, d)` did, where `oc` was the
    actor's cell: either a thing in `dest` answered DONE and nothing moved, or
    the actor was removed from `oc` (which can fail) and put in `dest`.
  */
  twostate predicate Entered(bs: Behaviors, dest: Cell, new initial: Reward, actor: Agent, origin: Cell, d: Direction,
                             oc: Cell, new r: Result<Response, GridError>)
    reads dest, actor, oc
  {
    var c := Chain(EnterBehavior(bs, actor, origin, d), Asked(old(dest.Contents()), None), initial);
    var (s, e) := RemoveSpec(old(oc.Contents()), AgentThing(actor), true);
    if c.0 == Done then
      r == Success(c) && unchanged(dest, actor, oc)
    else if e.Some? then
      && r == Failure(e.value)
      && unchanged(actor)
      && oc.Contents() == s
      && (oc != dest ==> unchanged(dest))
    else
      && r == Success((Done, initial))
      && actor.cell == dest && actor.inventory == old(actor.inventory)
      && (if oc == dest then dest.Contents() == s
          else oc.Contents() == s && dest.Contents() == PutAgentSpec(old(dest.Contents()), actor, false))
  }

  /**
    What `origin.exit_actor(.., actor, d)` did: either a thing in `origin`
    answered DONE and nothing moved, or the cell one step away was entered
    with the reward that chain produced.
  */
  twostate predicate Exited(bs: Behaviors, grid: Grid<Cell>, origin: Cell, initial: Reward, actor: Agent, d: Direction,
                            oc: Cell, new r: Result<Response, GridError>)
    requires grid.Rectangular()
    reads origin, actor, oc, NextCell(grid, d, origin.x, origin.y)
  {
    var c := Chain(ExitBehavior(bs, actor, d), Asked(old(origin.Contents()), None), initial);
    var dest := NextCell(grid, d, origin.x, origin.y);
    if c.0 == Done then r == Success(c) && unchanged(actor, oc, dest)
    else Entered(bs, dest, c.1, actor, origin, d.Opposite(), oc, r)
  }

  // ---------------------------------------------------------------------
  // Agents
  // ---------------------------------------------------------------------

  /** The container of the portable object lying in `c`, if there is one. */
  function PortableHome(c: Cell): Container
    reads c, ObjectSet(c.portableObject)
  {
    if c.portableObject.Some? then c.portableObject.value.container else Nowhere
  }

  /** The grid's cells one step away from (x, y) in each direction. */
  function Neighbours(grid: Grid<Cell>, x: int, y: int): set<object>
    requires grid.Rectangular()
  {
    {NextCell(grid, North, x, y), NextCell(grid, East, x, y), NextCell(grid, South, x, y), NextCell(grid, West, x, y)}
  }

  /** `_move`'s adjustment of the answer of trying to leave the cell. */
  function AfterMove(m: map<string, real>, d: Direction, exit: Result<Response, GridError>): Result<Response, GridError> {
    match exit
    case Failure(e) => Failure(e)
    case Success((o, rw)) =>
      if o == NotDone then Success((NotDone, Lookup(m, "MOVE:NO_EXIT", Some(0.0))))
      else if rw.None? then Success((Done, Lookup(m, BehaviorName(MoveB(d)), None)))
      else Success((o, rw))
  }

  /** The answer of `wait`, from the cell's contents before the call. */
  function WaitAnswer(bs: Behaviors, m: map<string, real>, actor: Agent, s: Slots, initial: Reward): Response {
    var c := Chain(WaitBehavior(bs, actor), Asked(s, None), initial);
    (Done, if c.0 == NotDone then Lookup(m, "WAIT", Some(0.0)) else c.1)
  }

  /**
    The answer of `_push`, given what the neighbouring cell's movable slot
    holds and what the cell's push handler answers.
  */
  function PushAnswer(m: map<string, real>, d: Direction, movable: Option<Object>, cellPush: Response): Response {
    if movable.None? then (Done, Lookup(m, "PUSH:NO_OBJECT", Some(0.0)))
    else if cellPush.0 == NotDone then (NotDone, Lookup(m, "PUSH:FAILED", Some(0.0)))
    else if cellPush.1.None? then (Done, Lookup(m, BehaviorName(PushB(d)), None))
    else cellPush
  }

  /** `_push`'s guard as written, `not (next_cell or next_cell.moveable_object)`: a cell is always truthy. */
  predicate PushGuardAsWritten(nextCellPresent: bool, movable: Option<Object>) {
    !(nextCellPresent || movable.Some?)
  }

  /** As written, a neighbour with an empty movable slot does not answer PUSH:NO_OBJECT. */
  lemma PushGuardNeverFires(movable: Option<Object>)
    ensures !PushGuardAsWritten(true, movable)
  {
  }

  /** Corrected: pushing into a cell with nothing movable always answers DONE with PUSH:NO_OBJECT's reward. */
  lemma PushWithoutObject(m: map<string, real>, d: Direction, cellPush: Response)
    ensures PushAnswer(m, d, None, cellPush) == (Done, Lookup(m, "PUSH:NO_OBJECT", Some(0.0)))
    ensures "PUSH:NO_OBJECT" in m ==> PushAnswer(m, d, None, cellPush) == (Done, Some(m["PUSH:NO_OBJECT"]))
  {
  }

  /** Waiting always ends the agent's turn; with base objects its reward is the map's WAIT reward. */
  lemma WaitIsDone(bs: Behaviors, m: map<string, real>, actor: Agent, s: Slots, initial: Reward)
    ensures WaitAnswer(bs, m, actor, s, initial).0 == Done
    ensures WaitAnswer(Defaults(m), m, actor, s, initial) == (Done, Lookup(m, "WAIT", Some(0.0)))
  {
    DefaultChainsPass(m, s, initial, actor, actor.cell, North);
  }

  /**
    What `get` did for an agent in cell `c` whose portable slot held
    `target`, contained in `home`: unless the cell's other things, the target
    itself or a full hand stop it, the target leaves its container (which
    must be a cell holding it) and is carried by the agent.
  */
  twostate predicate Took(bs: Behaviors, m: map<string, real>, agent: Agent, c: Cell, initial: Reward,
                          target: Option<Object>, home: Container, new r: Result<Response, GridError>)
    reads agent, c, ObjectSet(target), CellSet(home)
  {
    if target.None? then
      r == Success((Done, Lookup(m, "GET:NO_OBJECT", Some(0.0)))) && unchanged(agent, c) && unchanged(CellSet(home))
    else
      var o := target.value;
      var c1 := Chain(GetBehavior(bs, agent, o), Asked(old(c.Contents()), Some(ObjectThing(o))), initial);
      var c2 := bs.getThing(ObjectThing(o), initial, agent, o);
      if c1.0 == Done then r == Success(c1) && unchanged(agent, c, o) && unchanged(CellSet(home))
      else if c2.0 == Done then r == Success(c2) && unchanged(agent, c, o) && unchanged(CellSet(home))
      else if old(agent.inventory).Some? then
        r == Success((Done, Lookup(m, "GET:FULL", Some(0.0)))) && unchanged(agent, c, o) && unchanged(CellSet(home))
      else if !home.InCell? then r == Failure(NoRemove) && unchanged(agent, c, o)
      else
        var (s, e) := RemoveSpec(old(home.cell.Contents()), ObjectThing(o), true);
        && home.cell.Contents() == s
        && (c != home.cell ==> unchanged(c))
        && agent.cell == old(agent.cell)
        && (if e.Some? then r == Failure(e.value) && unchanged(o) && agent.inventory == old(agent.inventory)
            else r == Success((Done, c2.1)) && o.container == HeldBy(agent) && agent.inventory == Some(o))
  }

  /**
    What `drop` did for an agent in cell `c` holding `held`: unless the
    cell's things or an occupied portable slot stop it, the object is put in
    the cell and the agent's hands are empty.
  */
  twostate predicate Dropped(bs: Behaviors, m: map<string, real>, agent: Agent, c: Cell, initial: Reward,
                             held: Option<Object>, new r: Result<Response, GridError>)
    reads agent, c, ObjectSet(held)
  {
    if held.None? then r == Success((Done, Lookup(m, "DROP:NO_OBJECT", Some(0.0)))) && unchanged(agent, c)
    else
      var o := held.value;
      var c1 := Chain(DropBehavior(bs, agent, o), Asked(old(c.Contents()), Some(ObjectThing(o))), initial);
      if c1.0 == Done then r == Success(c1) && unchanged(agent, c, o)
      else if old(c.portableObject).Some? then r == Success((Done, Lookup(m, "DROP:FULL", None))) && unchanged(agent, c, o)
      else
        var (s, e) := PutObjectSpec(old(c.Contents()), o, old(o.container) == InCell(c));
        && c.Contents() == s
        && agent.cell == old(agent.cell)
        && (if e.Some? then r == Failure(e.value) && unchanged(agent, o)
            else r == Success((Done, c1.1)) && o.container == InCell(c) && agent.inventory == None)
  }

  /**
    Everything `execute` may touch for an agent standing in cell `c`: the
    agent, the cell, the cell's portable object and that object's home cell,
    the object in the agent's hands, and the four neighbouring cells.
  */
  function ActionFrame(grid: Grid<Cell>, agent: Agent, c: Cell, target: Option<Object>, home: Container,
                       held: Option<Object>): set<object>
    requires grid.Rectangular()
  {
    LocalFrame(agent, c, target, home, held) + Neighbours(grid, c.x, c.y)
  }

  /** The action frame without the neighbouring cells. */
  function LocalFrame(agent: Agent, c: Cell, target: Option<Object>, home: Container, held: Option<Object>): set<object> {
    {agent, c} + ObjectSet(target) + CellSet(home) + ObjectSet(held)
  }

  /** Every part of the action frame outside `touched` is left as it was. */
  twostate predicate KeptOutside(grid: Grid<Cell>, agent: Agent, c: Cell, target: Option<Object>, home: Container,
                                 held: Option<Object>, touched: set<object>)
    requires grid.Rectangular()
    reads ActionFrame(grid, agent, c, target, home, held)
  {
    && unchanged(LocalFrame(agent, c, target, home, held) - touched)
    && forall e: Direction :: NextCell(grid, e, c.x, c.y) !in touched ==> unchanged(NextCell(grid, e, c.x, c.y))
  }

  /** The part of that frame the behaviour `b` may change; waiting and pushing change nothing. */
  function BehaviorFootprint(grid: Grid<Cell>, b: Behavior, agent: Agent, c: Cell, target: Option<Object>,
                             home: Container, held: Option<Object>): set<object>
    requires grid.Rectangular()
  {
    match b
    case WaitB => {}
    case MoveB(d) => {agent, c, NextCell(grid, d, c.x, c.y)}
    case GetB => {agent, c} + ObjectSet(target) + CellSet(home)
    case DropB => {agent, c} + ObjectSet(held)
    case PushB(_) => {}
  }

  /** What the behaviour `b` did, for an agent that stood in cell `c`. */
  twostate predicate Behaved(bs: Behaviors, m: map<string, real>, grid: Grid<Cell>, agent: Agent, c: Cell,
                             initial: Reward, cellPush: Response, b: Behavior, target: Option<Object>,
                             home: Container, held: Option<Object>,
                             new inner: Result<Response, GridError>, new exit: Result<Response, GridError>)
    requires grid.Rectangular()
    reads agent, c, ObjectSet(target), CellSet(home), ObjectSet(held), Neighbours(grid, c.x, c.y),
      Neighbours(grid, agent.x, agent.y)
  {
    match b
    case WaitB => inner == Success(WaitAnswer(bs, m, agent, old(c.Contents()), initial))
    case MoveB(d) => Exited(bs, grid, c, initial, agent, d, c, exit) && inner == AfterMove(m, d, exit)
    case GetB => Took(bs, m, agent, c, initial, target, home, inner)
    case DropB => Dropped(bs, m, agent, c, initial, held, inner)
    case PushB(d) => inner == Success(PushAnswer(m, d, old(NextCell(grid, d, agent.x, agent.y).movableObject), cellPush))
  }

  class Agent {
    const x: int
    const y: int
    var cell: Cell
    var inventory: Option<Object>

    constructor (x: int, y: int, cell: Cell)
      ensures this.x == x && this.y == y && this.cell == cell && inventory.None?
    {
      this.x := x;
      this.y := y;
      this.cell := cell;
      inventory := None;
    }

    function Type(): ThingType { AgentType }

    /** An agent's container is its cell. */
    function Container(): Cell
      reads this
    {
      cell
    }

    predicate At(x: int, y: int) {
      this.x == x && this.y == y
    }

    method SetCell(c: Cell)
      modifies this
      ensures cell == c && inventory == old(inventory)
    {
      cell := c;
    }

    /** `wait`.  The source passes an undefined `reward` to the cell; the initial reward is passed. */
    method Wait(bs: Behaviors, m: map<string, real>, initial: Reward) returns (r: Response)
      ensures r == WaitAnswer(bs, m, this, cell.Contents(), initial)
    {
      var c := cell.WaitActor(bs, initial, this);
      var reward := c.1;
      if c.0 == NotDone {
        reward := Lookup(m, "WAIT", Some(0.0));
      }
      return (Done, reward);
    }

    /**
      `move_<dir>` and `_move`.  The source looks the name up in an undefined
      `_BEHAVIOR_NAMES`; the name listed in `BEHAVIOR_NAMES` is used.
    */
    method Move(bs: Behaviors, m: map<string, real>, grid: Grid<Cell>, initial: Reward, d: Direction)
      returns (r: Result<Response, GridError>, ghost exit: Result<Response, GridError>)
      requires grid.Rectangular()
      modifies this, cell, NextCell(grid, d, cell.x, cell.y)
      ensures Exited(bs, grid, old(cell), initial, this, d, old(cell), exit)
      ensures r == AfterMove(m, d, exit)
    {
      var answer := cell.ExitActor(bs, grid, initial, this, d);
      exit := answer;
      r := answer;
      if answer.Success? {
        var (outcome, reward) := answer.value;
        if outcome == NotDone {
          r := Success((NotDone, Lookup(m, "MOVE:NO_EXIT", Some(0.0))));
        } else if reward.None? {
          r := Success((Done, Lookup(m, BehaviorName(MoveB(d)), None)));
        }
      }
    }

    /** `get`: pick up the portable object lying in the agent's cell. */
    method Get(bs: Behaviors, m: map<string, real>, initial: Reward) returns (r: Result<Response, GridError>)
      modifies this, cell, ObjectSet(cell.portableObject), CellSet(PortableHome(cell))
      ensures Took(bs, m, this, old(cell), initial, old(cell.portableObject), old(PortableHome(cell)), r)
    {
      var target := cell.portableObject;
      if target.None? {
        return Success((Done, Lookup(m, "GET:NO_OBJECT", Some(0.0))));
      }
      var o := target.value;
      var c1 := cell.Get(bs, initial, this, o);
      if c1.0 == Done {
        return Success(c1);
      }
      var c2 := bs.getThing(ObjectThing(o), initial, this, o);
      if c2.0 == Done {
        return Success(c2);
      }
      if inventory.Some? {
        return Success((Done, Lookup(m, "GET:FULL", Some(0.0))));
      }
      if !o.container.InCell? {
        return Failure(NoRemove);
      }
      var home := o.container.cell;
      var e := home.Remove(ObjectThing(o));
      if e.Some? {
        return Failure(e.value);
      }
      o.SetContainer(HeldBy(this));
      inventory := Some(o);
      return Success((Done, c2.1));
    }

    /** `drop`: put the carried object down in the agent's cell.  The source puts an undefined `target`; the carried object is put. */
    method Drop(bs: Behaviors, m: map<string, real>, initial: Reward) returns (r: Result<Response, GridError>)
      modifies this, cell, ObjectSet(inventory)
      ensures Dropped(bs, m, this, old(cell), initial, old(inventory), r)
    {
      if inventory.None? {
        return Success((Done, Lookup(m, "DROP:NO_OBJECT", Some(0.0))));
      }
      var o := inventory.value;
      var c1 := cell.Drop(bs, initial, this, o);
      if c1.0 == Done {
        return Success(c1);
      }
      if cell.portableObject.Some? {
        return Success((Done, Lookup(m, "DROP:FULL", None)));
      }
      var e := cell.Put(ObjectThing(o));
      if e.Some? {
        return Failure(e.value);
      }
      o.SetContainer(InCell(cell));
      inventory := None;
      return Success((Done, c1.1));
    }

    /**
      `_push`: the movable object one step away from the agent's own
      coordinates is pushed; `cellPush` is what the cell's push handler answers.
      The guard is corrected (see `PushGuardAsWritten`) and the misspelt
      `Outcome.NOT_DONE` read as `Outcomes.NOT_DONE`.
    */
    method Push(m: map<string, real>, grid: Grid<Cell>, d: Direction, cellPush: Response) returns (r: Response)
      requires grid.Rectangular()
      ensures r == PushAnswer(m, d, NextCell(grid, d, x, y).movableObject, cellPush)
    {
      var next := NextCell(grid, d, x, y);
      if next.movableObject.None? {
        return (Done, Lookup(m, "PUSH:NO_OBJECT", Some(0.0)));
      }
      var (outcome, reward) := cellPush;
      r := cellPush;
      if outcome == NotDone {
        r := (NotDone, Lookup(m, "PUSH:FAILED", Some(0.0)));
      } else if reward.None? {
        r := (Done, Lookup(m, BehaviorName(PushB(d)), None));
      }
    }

    /** A wait, seen from `execute`: nothing changes. */
    method ExecuteWait(bs: Behaviors, m: map<string, real>, grid: Grid<Cell>, initial: Reward, cellPush: Response)
      returns (inner: Result<Response, GridError>)
      requires grid.Rectangular()
      ensures Behaved(bs, m, grid, this, cell, initial, cellPush, WaitB, cell.portableObject,
                      PortableHome(cell), inventory, inner, Failure(NoSuchAction))
      ensures KeptOutside(grid, this, cell, cell.portableObject, PortableHome(cell), inventory,
                          BehaviorFootprint(grid, WaitB, this, cell, cell.portableObject, PortableHome(cell), inventory))
    {
      var w := Wait(bs, m, initial);
      inner := Success(w);
    }

    /** A push, seen from `execute`: nothing changes. */
    method ExecutePush(bs: Behaviors, m: map<string, real>, grid: Grid<Cell>, initial: Reward, cellPush: Response,
                       d: Direction)
      returns (inner: Result<Response, GridError>)
      requires grid.Rectangular()
      ensures Behaved(bs, m, grid, this, cell, initial, cellPush, PushB(d), cell.portableObject,
                      PortableHome(cell), inventory, inner, Failure(NoSuchAction))
      ensures KeptOutside(grid, this, cell, cell.portableObject, PortableHome(cell), inventory,
                          BehaviorFootprint(grid, PushB(d), this, cell, cell.portableObject, PortableHome(cell), inventory))
    {
      var p := Push(m, grid, d, cellPush);
      inner := Success(p);
    }

    /** A move, seen from `execute`: the rest of the action frame is left alone. */
    method ExecuteMove(bs: Behaviors, m: map<string, real>, grid: Grid<Cell>, initial: Reward, cellPush: Response,
                       d: Direction)
      returns (inner: Result<Response, GridError>, ghost exit: Result<Response, GridError>)
      requires grid.Rectangular()
      modifies ActionFrame(grid, this, cell, cell.portableObject, PortableHome(cell), inventory)
      ensures var c, target, home, held := old(cell), old(cell.portableObject), old(PortableHome(cell)), old(inventory);
        Behaved(bs, m, grid, this, c, initial, cellPush, MoveB(d), target, home, held, inner, exit)
      ensures var c, target, home, held := old(cell), old(cell.portableObject), old(PortableHome(cell)), old(inventory);
        KeptOutside(grid, this, c, target, home, held, BehaviorFootprint(grid, MoveB(d), this, c, target, home, held))
    {
      inner, exit := Move(bs, m, grid, initial, d);
    }

    /** A get, seen from `execute`: the rest of the action frame is left alone. */
    method ExecuteGet(bs: Behaviors, m: map<string, real>, grid: Grid<Cell>, initial: Reward, cellPush: Response)
      returns (inner: Result<Response, GridError>)
      requires grid.Rectangular()
      modifies ActionFrame(grid, this, cell, cell.portableObject, PortableHome(cell), inventory)
      ensures var c, target, home, held := old(cell), old(cell.portableObject), old(PortableHome(cell)), old(inventory);
        Behaved(bs, m, grid, this, c, initial, cellPush, GetB, target, home, held, inner, Failure(NoSuchAction))
      ensures var c, target, home, held := old(cell), old(cell.portableObject), old(PortableHome(cell)), old(inventory);
        KeptOutside(grid, this, c, target, home, held, BehaviorFootprint(grid, GetB, this, c, target, home, held))
    {
      inner := Get(bs, m, initial);
    }

    /** A drop, seen from `execute`: the rest of the action frame is left alone. */
    method ExecuteDrop(bs: Behaviors, m: map<string, real>, grid: Grid<Cell>, initial: Reward, cellPush: Response)
      returns (inner: Result<Response, GridError>)
      requires grid.Rectangular()
      modifies ActionFrame(grid, this, cell, cell.portableObject, PortableHome(cell), inventory)
      ensures var c, target, home, held := old(cell), old(cell.portableObject), old(PortableHome(cell)), old(inventory);
        Behaved(bs, m, grid, this, c, initial, cellPush, DropB, target, home, held, inner, Failure(NoSuchAction))
      ensures var c, target, home, held := old(cell), old(cell.portableObject), old(PortableHome(cell)), old(inventory);
        KeptOutside(grid, this, c, target, home, held, BehaviorFootprint(grid, DropB, this, c, target, home, held))
    {
      inner := Drop(bs, m, initial);
    }

    /**
      `execute`: run the behaviour the action number selects and report a
      missing reward as 0.0.
    */
    method Execute(bs: Behaviors, m: map<string, real>, grid: Grid<Cell>, action: int, initial: Reward, cellPush: Response)
      returns (r: Result<(Outcome, real), GridError>, ghost inner: Result<Response, GridError>,
               ghost exit: Result<Response, GridError>)
      requires grid.Rectangular()
      modifies ActionFrame(grid, this, cell, cell.portableObject, PortableHome(cell), inventory)
      ensures ActionIndex(action).None? ==>
        && r == Failure(NoSuchAction)
        && KeptOutside(grid, this, old(cell), old(cell.portableObject), old(PortableHome(cell)), old(inventory), {})
      ensures ActionIndex(action).Some? ==>
        Behaved(bs, m, grid, this, old(cell), initial, cellPush, BehaviorTable[ActionIndex(action).value],
                old(cell.portableObject), old(PortableHome(cell)), old(inventory), inner, exit)
      ensures ActionIndex(action).Some? ==>
        var c, target, home, held := old(cell), old(cell.portableObject), old(PortableHome(cell)), old(inventory);
        KeptOutside(grid, this, c, target, home, held,
                    BehaviorFootprint(grid, BehaviorTable[ActionIndex(action).value], this, c, target, home, held))
      ensures inner.Failure? ==> r == Failure(inner.error)
      ensures inner.Success? ==> r == Success((inner.value.0, inner.value.1.GetOr(0.0)))
    {
      exit := Failure(NoSuchAction);
      var index := ActionIndex(action);
      if index.None? {
        inner := Failure(NoSuchAction);
        return Failure(NoSuchAction), inner, exit;
      }
      var answer: Result<Response, GridError>;
      match BehaviorTable[index.value] {
        case WaitB =>
          answer := ExecuteWait(bs, m, grid, initial, cellPush);
        case MoveB(d) =>
          answer, exit := ExecuteMove(bs, m, grid, initial, cellPush, d);
        case GetB =>
          answer := ExecuteGet(bs, m, grid, initial, cellPush);
        case DropB =>
          answer := ExecuteDrop(bs, m, grid, initial, cellPush);
        case PushB(d) =>
          answer := ExecutePush(bs, m, grid, initial, cellPush, d);
      }
      inner := answer;
      match answer {
        case Failure(e) => r := Failure(e);
        case Success((o, rw)) => r := Success((o, rw.GetOr(0.0)));
      }
    }
  }
}
