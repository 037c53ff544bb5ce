/**
  The generic grid-world environment (environment.py): it counts steps,
  hands each action to the world state, ends an episode at the step limit,
  and keeps one renderer per render mode.

  The world state is application code: what its `execute`, `is_terminal`,
  `reset` and `create_renderer` answer is passed in to the operations below.
*/
module GridEnvironment {
  import opened Wrappers

  /** `_time_limit_exceeded`: there is a limit and the step count has reached it. */
  predicate TimeLimitExceeded(maxSteps: Option<int>, tick: int) {
    maxSteps.Some? && tick >= maxSteps.value
  }

  /** An unbounded episode never reaches its limit. */
  lemma NoLimitNeverExceeded(tick: int)
    ensures !TimeLimitExceeded(None, tick)
  {
  }

  /** Once the limit is reached, every later step is past it too. */
  lemma LimitStaysExceeded(maxSteps: Option<int>, tick: int, later: int)
    requires TimeLimitExceeded(maxSteps, tick) && tick <= later
    ensures TimeLimitExceeded(maxSteps, later)
  {
  }

  /** Counting from zero, the limit is first reached on exactly the step numbered by it. */
  lemma LimitReachedOnItsStep(n: int, tick: int)
    requires n >= 1 && 0 <= tick
    ensures TimeLimitExceeded(Some(n), tick + 1) && !TimeLimitExceeded(Some(n), tick) <==> tick + 1 == n
  {
  }

  /**
    `render`'s cache: the renderer already made for `mode`, or else the newly
    created one (None when creating it raised), stored for next time.
  */
  function Cached<R>(renderers: map<string, R>, mode: string, created: Option<R>): (Option<R>, map<string, R>) {
    if mode in renderers then (Some(renderers[mode]), renderers)
    else if created.Some? then (created, renderers[mode := created.value])
    else (None, renderers)
  }

  /** A mode's renderer is made once: rendering again reuses it, whatever would be created. */
  lemma RenderReusesRenderer<R>(renderers: map<string, R>, mode: string, created: Option<R>, later: Option<R>)
    requires mode in renderers || created.Some?
    ensures var (first, rs) := Cached(renderers, mode, created);
      first.Some? && Cached(rs, mode, later) == (first, rs)
  {
  }

  /** The cache only ever grows by the mode rendered, and never changes another mode's renderer. */
  lemma RenderTouchesOnlyItsMode<R>(renderers: map<string, R>, mode: string, created: Option<R>, other: string)
    requires other != mode
    ensures var (_, rs) := Cached(renderers, mode, created);
      rs.Keys <= renderers.Keys + {mode} && (other in rs <==> other in renderers)
      && (other in rs ==> rs[other] == renderers[other])
  {
  }

  /** After its renderer is closed, the next render of a mode uses a newly created one. */
  lemma CloseThenRenderCreates<R>(renderers: map<string, R>, mode: string, created: R)
    ensures Cached(renderers - {mode}, mode, Some(created)) == (Some(created), (renderers - {mode})[mode := created])
  {
  }

  class GridEnvironment<S, R> {
    var state: S
    var maxSteps: Option<int>
    var tick: int
    var renderers: map<string, R>

    constructor (state: S, maxSteps: Option<int> := None)
      ensures this.state == state && this.maxSteps == maxSteps
      ensures tick == 0 && renderers == map[]
    {
      this.state := state;
      this.maxSteps := maxSteps;
      tick := 0;
      renderers := map[];
    }

    /** `reset`: the state's own reset gives the new state; the step count is kept. */
    method Reset(initial: S)
      modifies this
      ensures state == initial
      ensures tick == old(tick) && maxSteps == old(maxSteps) && renderers == old(renderers)
    {
      state := initial;
    }

    /**
      `step`: counts the step, then takes the state and reward `execute`
      answered; the episode is done when the state is terminal or the new
      step count reaches the limit.
    */
    method Step(next: S, reward: real, terminal: bool) returns (s: S, r: real, done: bool)
      modifies this
      ensures tick == old(tick) + 1 && state == next
      ensures s == next && r == reward
      ensures done <==> terminal || TimeLimitExceeded(maxSteps, tick)
      ensures maxSteps == old(maxSteps) && renderers == old(renderers)
    {
      tick := tick + 1;
      done := terminal || TimeLimitExceeded(maxSteps, tick);
      state := next;
      return next, reward, done;
    }

    /** `render`'s choice of renderer; `created` is what `create_renderer(mode)` answers. */
    method Render(mode: string, created: Option<R>) returns (renderer: Option<R>)
      modifies this
      ensures (renderer, renderers) == Cached(old(renderers), mode, created)
      ensures state == old(state) && tick == old(tick) && maxSteps == old(maxSteps)
    {
      if mode in renderers {
        return Some(renderers[mode]);
      }
      if created.Some? {
        renderers := renderers[mode := created.value];
      }
      return created;
    }

    /** `close_renderer`: forgets the mode's renderer, answering the one to close. */
    method CloseRenderer(mode: string) returns (closed: Option<R>)
      modifies this
      ensures renderers == old(renderers) - {mode}
      ensures closed == if mode in old(renderers) then Some(old(renderers)[mode]) else None
      ensures state == old(state) && tick == old(tick) && maxSteps == old(maxSteps)
    {
      closed := None;
      if mode in renderers {
        closed := Some(renderers[mode]);
        renderers := renderers - {mode};
      }
    }

    /** `close_all_renderers`: forgets every renderer, answering those to close. */
    method CloseAllRenderers() returns (closed: map<string, R>)
      modifies this
      ensures closed == old(renderers) && renderers == map[]
      ensures state == old(state) && tick == old(tick) && maxSteps == old(maxSteps)
    {
      closed := renderers;
      renderers := map[];
    }
  }
}
