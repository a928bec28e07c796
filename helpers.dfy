/**
  A camera's motion status and its move timer. `SetMoving` arms a fresh
  timer after cancelling the one before; `SetIdle` cancels the timer; a timer
  that expires runs `SetIdle`. Timers are the threading module's: the model
  keeps the set of started timers that have neither been cancelled nor fired,
  and an expiry is an explicit event that only such a timer can cause.
 */
module Helpers {
  import opened Wrappers

  datatype MotionStatus = Idle | Moving

  /** A started timer: which one it is, and its delay in seconds. */
  datatype Timer = Timer(id: nat, seconds: real)

  /** The motion entries of a camera's record ('status', '_move_timer'), with
      the timers still due to fire and the identity the next timer will get. */
  datatype Motion = Motion(status: Option<MotionStatus>, timer: Option<Timer>, pending: set<nat>, nextId: nat)

  /** The delay used when the record has no 'move_timeout'. */
  const DefaultMoveTimeout: real := 10.0

  function TimerIds(t: Option<Timer>): set<nat>
  {
    if t.Some? then {t.value.id} else {}
  }

  /** The invariant the two operations keep: the stored timer is the only one
      still due, and the status is MOVING exactly while a timer is stored. */
  ghost predicate Consistent(m: Motion)
  {
    && m.pending == TimerIds(m.timer)
    && (m.timer.Some? ==> m.timer.value.id < m.nextId)
    && (m.status == Some(Moving) <==> m.timer.Some?)
  }

  /** set_moving: cancel and drop a stored timer, set MOVING, start and store a new one. */
  ghost function AfterSetMoving(m: Motion, seconds: real): Motion
  {
    Motion(Some(Moving), Some(Timer(m.nextId, seconds)), m.pending - TimerIds(m.timer) + {m.nextId}, m.nextId + 1)
  }

  /** set_idle: cancel and drop a stored timer, set IDLE. */
  ghost function AfterSetIdle(m: Motion): Motion
  {
    Motion(Some(Idle), None, m.pending - TimerIds(m.timer), m.nextId)
  }

  /** Timer `id` reaches its deadline: if it is still due it fires (and is
      no longer due) and its callback runs set_idle; otherwise nothing happens. */
  ghost function AfterExpiry(m: Motion, id: nat): Motion
  {
    if id in m.pending then AfterSetIdle(m.(pending := m.pending - {id})) else m
  }

  lemma TransitionsKeepConsistent(m: Motion, seconds: real, id: nat)
    requires Consistent(m)
    ensures Consistent(AfterSetMoving(m, seconds))
    ensures Consistent(AfterSetIdle(m))
    ensures Consistent(AfterExpiry(m, id))
  {
  }

  /** Only the stored timer can change anything when it expires. */
  lemma OnlyStoredTimerFires(m: Motion, id: nat)
    requires Consistent(m)
    ensures AfterExpiry(m, id) != m <==> m.timer.Some? && m.timer.value.id == id
  {
  }

  /** A move followed by the expiry of its own timer ends IDLE with no timer. */
  lemma MoveThenExpiry(m: Motion, seconds: real)
    requires Consistent(m)
    ensures AfterExpiry(AfterSetMoving(m, seconds), m.nextId) == Motion(Some(Idle), None, {}, m.nextId + 1)
  {
  }

  /** After two moves only the second timer is due: the first one's expiry
      changes nothing, the second one's sets IDLE. */
  lemma SecondMoveSupersedesFirst(m: Motion, first: real, second: real)
    requires Consistent(m)
    ensures var m2 := AfterSetMoving(AfterSetMoving(m, first), second);
      && m2.pending == {m.nextId + 1}
      && AfterExpiry(m2, m.nextId) == m2
      && AfterExpiry(m2, m.nextId + 1) == Motion(Some(Idle), None, {}, m.nextId + 2)
  {
  }

  /** After a stop no timer expiry has any effect. */
  lemma NoExpiryAfterIdle(m: Motion, id: nat)
    requires Consistent(m)
    ensures AfterExpiry(AfterSetIdle(m), id) == AfterSetIdle(m)
  {
  }

  /** With no timer stored, set_idle only sets the status. */
  lemma IdleWithoutTimer(m: Motion)
    requires m.timer.None?
    ensures AfterSetIdle(m) == m.(status := Some(Idle))
  {
  }

  /** The per-camera configuration record. The motion entries are changed
      only by the three methods below; the others are settings. */
  class CameraConfig {
    var status: Option<MotionStatus>   // 'status'
    var moveTimer: Option<Timer>       // '_move_timer'
    var pending: set<nat>              // started timers neither cancelled nor fired
    var nextTimerId: nat
    var moveTimeout: Option<real>      // 'move_timeout'
    var xMultiplier: Option<real>      // 'x_multiplier'
    var yMultiplier: Option<real>      // 'y_multiplier'
    var statusX: Option<string>        // 'status_x': the pan of the last polled position
    var statusY: Option<string>        // 'status_y': its tilt

    ghost function MotionState(): Motion
      reads this
    {
      Motion(status, moveTimer, pending, nextTimerId)
    }

    ghost predicate Valid()
      reads this
    {
      Consistent(MotionState())
    }

    /** A record as loaded from the configuration: no status, no timer, no polled position. */
    constructor (moveTimeout: Option<real>, xMultiplier: Option<real>, yMultiplier: Option<real>)
      ensures Valid()
      ensures status.None? && moveTimer.None? && pending == {} && statusX.None? && statusY.None?
      ensures this.moveTimeout == moveTimeout && this.xMultiplier == xMultiplier && this.yMultiplier == yMultiplier
    {
      status, moveTimer, pending, nextTimerId := None, None, {}, 0;
      this.moveTimeout, this.xMultiplier, this.yMultiplier := moveTimeout, xMultiplier, yMultiplier;
      statusX, statusY := None, None;
    }

    method SetMoving()
      requires Valid()
      modifies this`status, this`moveTimer, this`pending, this`nextTimerId
      ensures Valid()
      ensures MotionState() == AfterSetMoving(old(MotionState()), if moveTimeout.Some? then moveTimeout.value else DefaultMoveTimeout)
      ensures status == Some(Moving)
      ensures moveTimer == Some(Timer(old(nextTimerId), if moveTimeout.Some? then moveTimeout.value else DefaultMoveTimeout))
      ensures pending == {old(nextTimerId)}
      ensures old(moveTimer).Some? ==> old(moveTimer).value.id !in pending
    {
      var timeout := if moveTimeout.Some? then moveTimeout.value else DefaultMoveTimeout;
      if moveTimer.Some? {
        pending := pending - {moveTimer.value.id};  // existing.cancel()
        moveTimer := None;
      }
      status := Some(Moving);
      var timer := Timer(nextTimerId, timeout);
      nextTimerId := nextTimerId + 1;
      moveTimer := Some(timer);
      pending := pending + {timer.id};              // timer.start()
    }

    method SetIdle()
      requires Valid()
      modifies this`status, this`moveTimer, this`pending
      ensures Valid()
      ensures MotionState() == AfterSetIdle(old(MotionState()))
      ensures status == Some(Idle) && moveTimer.None? && pending == {}
      ensures old(moveTimer).None? ==> pending == old(pending)
    {
      if moveTimer.Some? {
        pending := pending - {moveTimer.value.id};  // timer.cancel()
        moveTimer := None;
      }
      status := Some(Idle);
    }

    /** Timer `id` reaches its deadline; `fired` says whether it was still due. */
    method Expire(id: nat) returns (fired: bool)
      requires Valid()
      modifies this`status, this`moveTimer, this`pending
      ensures Valid()
      ensures MotionState() == AfterExpiry(old(MotionState()), id)
      ensures fired <==> old(moveTimer).Some? && old(moveTimer).value.id == id
      ensures fired ==> status == Some(Idle) && moveTimer.None? && pending == {}
      ensures !fired ==> MotionState() == old(MotionState())
    {
      fired := id in pending;
      if fired {
        SetIdle();  // the callback; the timer that fired is the stored one, which it drops
      }
    }
  }
}
