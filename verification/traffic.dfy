/** Traffic updates (`TrafficManager`, NavigateX.cpp:574-606): a FIFO queue
    of pending updates and the current level per route. */
module Traffic {
  import opened Common

  /** `TrafficLevel`: LOW=1, MEDIUM=2, HIGH=3. */
  datatype Level = Low | Medium | High

  function Code(l: Level): (c: int)
    ensures 1 <= c <= 3
  {
    match l
    case Low => 1
    case Medium => 2
    case High => 3
  }

  /** The level an integer code stands for, if any. */
  function FromCode(c: int): (l: Option<Level>)
    ensures l.Some? <==> 1 <= c <= 3
  {
    if c == 1 then Some(Low) else if c == 2 then Some(Medium) else if c == 3 then Some(High) else None
  }

  /** The numbering is a one-to-one correspondence between the levels and
      1..3 that follows the order LOW < MEDIUM < HIGH. */
  lemma CodeRoundTrip(l: Level, c: int)
    ensures FromCode(Code(l)) == Some(l)
    ensures FromCode(c).Some? ==> Code(FromCode(c).value) == c
    ensures Code(Low) < Code(Medium) < Code(High)
  {
  }

  datatype Update = Update(routeName: string, level: Level)

  /** `updates` is the queue, front first; `current` the per-route map. */
  datatype Manager = Manager(updates: seq<Update>, current: map<string, Level>)

  /** `pushUpdate` (NavigateX.cpp:589-591): join the back of the queue. */
  function PushUpdate(m: Manager, u: Update): (r: Manager)
    ensures r.updates == m.updates + [u] && r.current == m.current
  {
    m.(updates := m.updates + [u])
  }

  /** The level of the last update in `us` for `route`, if there is one:
      what a front-to-back drain leaves behind. */
  function LastLevel(us: seq<Update>, route: string): (r: Option<Level>)
    ensures r.Some? <==> exists i :: 0 <= i < |us| && us[i].routeName == route
  {
    if |us| == 0 then None
    else if us[|us| - 1].routeName == route then Some(us[|us| - 1].level)
    else
      assert forall i :: 0 <= i < |us| - 1 ==> us[..|us| - 1][i] == us[i];
      LastLevel(us[..|us| - 1], route)
  }

  lemma LastLevelSnoc(us: seq<Update>, u: Update, route: string)
    ensures LastLevel(us + [u], route) == if u.routeName == route then Some(u.level) else LastLevel(us, route)
  {
    assert (us + [u])[..|us|] == us;
  }

  /** A pushed update wins once the queue is drained: its route ends at its
      level, and every other route ends where draining the old queue leaves
      it (with `ProcessUpdates`' contract, this is push-then-process). */
  lemma PushUpdateWins(m: Manager, u: Update, route: string)
    ensures PushUpdate(m, u).current == m.current
    ensures After(m.current, PushUpdate(m, u).updates, route)
            == if route == u.routeName then Some(u.level) else After(m.current, m.updates, route)
  {
    LastLevelSnoc(m.updates, u, route);
  }

  /** What `current` should hold for `route` after draining `us` on top of
      `before`: the last queued level, or the old entry when none was queued. */
  function After(before: map<string, Level>, us: seq<Update>, route: string): Option<Level>
  {
    match LastLevel(us, route)
    case Some(l) => Some(l)
    case None => Get(before, route)
  }

  /** The map lookup as an optional value. */
  function Get(current: map<string, Level>, route: string): Option<Level>
  {
    if route in current then Some(current[route]) else None
  }

  /** `processUpdates` (NavigateX.cpp:593-602): pop updates front to back,
      each one overwriting its route's level, and count them. */
  method ProcessUpdates(m: Manager) returns (r: Manager, count: nat)
    ensures r.updates == []
    ensures count == |m.updates|
    ensures forall route :: Get(r.current, route) == After(m.current, m.updates, route)
  {
    var queue := m.updates;
    var current := m.current;
    count := 0;
    while |queue| > 0
      invariant count <= |m.updates| && queue == m.updates[count..]
      invariant forall route :: Get(current, route) == After(m.current, m.updates[..count], route)
    {
      var u := queue[0];
      assert u == m.updates[count];
      assert m.updates[..count + 1] == m.updates[..count] + [u];
      var next := current[u.routeName := u.level];
      var done := m.updates[..count + 1];
      forall route
        ensures Get(next, route) == After(m.current, done, route)
      {
        assert Get(current, route) == After(m.current, m.updates[..count], route);
        LastLevelSnoc(m.updates[..count], u, route);
      }
      queue := queue[1..];
      current := next;
      count := count + 1;
    }
    assert m.updates[..count] == m.updates;
    r := Manager(queue, current);
  }
}
