/** The interrupt storm test: two timer interrupts inject messages at both ends of a chain of
    threads that pass them on through bounded mailboxes. */
module IrqStorm {
  import opened Arithmetic

  datatype Dir = Left | Right

  /** A message; its number, the order of injection in its direction, is there to tell
      messages apart. */
  datatype Msg = Msg(dir: Dir, id: nat)

  datatype Option<+T> = None | Some(value: T)

  /** A fetch that has happened. */
  datatype Fetched = Fetched(thread: nat, msg: Msg)

  datatype Storm = Storm(
    size: nat,                   // mailbox size
    boxes: seq<seq<Msg>>,        // mailbox of each thread, oldest message first
    held: seq<Option<Msg>>,      // message a thread has fetched and not passed on yet
    saturated: bool,
    exited: seq<Msg>,            // messages that have left the chain, in order
    dropped: seq<Msg>,           // messages that found a mailbox full
    owing: seq<bool>,            // threads whose post was refused and that have not set the flag yet
    flagged: nat,                // how often the flag has been set
    mark: nat,                   // how often it had been set when it was last cleared
    left: nat,                   // messages injected in each direction
    right: nat,
    log: seq<Fetched>)
  {
    ghost predicate Shaped() {
      && |boxes| == |held| == |owing| > 0
      && mark <= flagged
      && (saturated <==> mark < flagged)
      && |dropped| == flagged + Trues(owing)
      && (forall i | 0 <= i < |owing| :: owing[i] ==> held[i].None?)
      && (forall i | 0 <= i < |boxes| :: |boxes[i]| <= size)
      && (forall x | 0 <= x < |log| :: log[x].thread < |boxes|)
    }
  }

  function Trues(s: seq<bool>): nat {
    if s == [] then 0 else Trues(s[..|s| - 1]) + if s[|s| - 1] then 1 else 0
  }

  lemma {:induction false} TruesSet(s: seq<bool>, i: nat, x: bool)
    requires i < |s|
    ensures Trues(s[i := x]) == Trues(s) + (if x then 1 else 0) - (if s[i] then 1 else 0)
    decreases |s|
  {
    var t := s[i := x];
    if i < |s| - 1 {
      TruesSet(s[..|s| - 1], i, x);
      assert t[..|s| - 1] == s[..|s| - 1][i := x];
    } else {
      assert t[..|s| - 1] == s[..|s| - 1];
    }
  }

  datatype Event = Timer(dir: Dir) | Fetch(thread: nat) | Forward(thread: nat) | Flag(thread: nat) | Clear

  /** A callback posts and sets the flag under the lock: a full mailbox refuses the message, which
      is lost. */
  function Post(s: Storm, i: nat, m: Msg): (t: Storm)
    requires i < |s.boxes|
    ensures |t.boxes| == |s.boxes| && t.held == s.held
  {
    if |s.boxes[i]| < s.size then s.(boxes := s.boxes[i := s.boxes[i] + [m]])
    else s.(saturated := true, flagged := s.flagged + 1, dropped := s.dropped + [m])
  }

  /** A thread posts without waiting; if the message is refused it still has to set the flag. */
  function Offer(s: Storm, me: nat, i: nat, m: Msg): (t: Storm)
    requires i < |s.boxes| && me < |s.owing|
    ensures |t.boxes| == |s.boxes| && t.held == s.held && |t.owing| == |s.owing|
    ensures |s.boxes[i]| < s.size ==> t == Post(s, i, m)
  {
    if |s.boxes[i]| < s.size then s.(boxes := s.boxes[i := s.boxes[i] + [m]])
    else s.(owing := s.owing[me := true], dropped := s.dropped + [m])
  }

  /** One step: a timer callback, a thread fetching, a thread passing its message on, a thread
      setting the flag after a refused post, or the test clearing the flag. A thread that is not
      at that point, or has nothing to fetch or to pass on, does nothing. */
  function Step(s: Storm, e: Event): (t: Storm)
    requires |s.boxes| == |s.held| == |s.owing| > 0
    ensures |t.boxes| == |t.held| == |t.owing| == |s.boxes|
  {
    match e
    case Timer(Right) => Post(s.(right := s.right + 1), 0, Msg(Right, s.right))
    case Timer(Left) => Post(s.(left := s.left + 1), |s.boxes| - 1, Msg(Left, s.left))
    case Fetch(i) =>
      if i < |s.boxes| && s.held[i].None? && !s.owing[i] && s.boxes[i] != []
      then s.(held := s.held[i := Some(s.boxes[i][0])], boxes := s.boxes[i := s.boxes[i][1..]],
              log := s.log + [Fetched(i, s.boxes[i][0])])
      else s
    case Forward(i) =>
      if i < |s.boxes| && s.held[i].Some? then
        var m := s.held[i].value;
        var s1 := s.(held := s.held[i := None]);
        if m.dir == Left && i > 0 then Offer(s1, i, i - 1, m)
        else if m.dir == Right && i + 1 < |s.boxes| then Offer(s1, i, i + 1, m)
        else s1.(exited := s1.exited + [m])
      else s
    case Flag(i) =>
      if i < |s.owing| && s.owing[i]
      then s.(saturated := true, flagged := s.flagged + 1, owing := s.owing[i := false])
      else s
    case Clear => s.(saturated := false, mark := s.flagged)
  }

  lemma ForwardShaped(s: Storm, i: nat)
    requires s.Shaped()
    ensures Step(s, Forward(i)).Shaped()
  {
    hide Trues;
    if i < |s.owing| {
      TruesSet(s.owing, i, true);
    }
  }

  lemma FlagShaped(s: Storm, i: nat)
    requires s.Shaped()
    ensures Step(s, Flag(i)).Shaped()
  {
    hide Trues;
    if i < |s.owing| {
      TruesSet(s.owing, i, false);
    }
  }

  lemma StepShaped(s: Storm, e: Event)
    requires s.Shaped()
    ensures Step(s, e).Shaped()
  {
    hide Trues;
    match e
    case Forward(i) => ForwardShaped(s, i);
    case Flag(i) => FlagShaped(s, i);
    case _ =>
  }

  // ---- What the steps do, in full

  /** A message that is sent to a mailbox with room goes to its end; it is dropped exactly if the
      mailbox is full. */
  ghost predicate Sent(s: Storm, t: Storm, i: nat, m: Msg) {
    && i < |s.boxes| == |t.boxes|
    && (forall j | 0 <= j < |s.boxes| && j != i :: t.boxes[j] == s.boxes[j])
    && if |s.boxes[i]| < s.size then t.boxes[i] == s.boxes[i] + [m] && t.dropped == s.dropped
       else t.boxes[i] == s.boxes[i] && t.dropped == s.dropped + [m]
  }

  /** The timers send to the first thread and to the last, and a drop sets the flag at once. */
  lemma TimerSends(s: Storm, d: Dir)
    requires s.Shaped()
    ensures var t := Step(s, Timer(d));
      && Sent(s, t, if d == Right then 0 else |s.boxes| - 1, Msg(d, if d == Right then s.right else s.left))
      && t.held == s.held && t.exited == s.exited && t.log == s.log && t.owing == s.owing
      && (t.saturated <==> s.saturated || t.dropped != s.dropped)
  {
  }

  /** A thread with a free hand takes the oldest message of its mailbox. */
  lemma FetchTakes(s: Storm, i: nat)
    requires s.Shaped() && i < |s.boxes| && s.held[i].None? && !s.owing[i] && s.boxes[i] != []
    ensures var t := Step(s, Fetch(i));
      && t.held == s.held[i := Some(s.boxes[i][0])] && t.boxes == s.boxes[i := s.boxes[i][1..]]
      && t.log == s.log + [Fetched(i, s.boxes[i][0])] && t.dropped == s.dropped && t.exited == s.exited
  {
  }

  /** It sends it to the neighbour in its direction, or out of the chain at the end, and owes the
      flag exactly if the message was dropped. */
  lemma ForwardSends(s: Storm, i: nat)
    requires s.Shaped() && i < |s.boxes| && s.held[i].Some?
    ensures var t, m := Step(s, Forward(i)), s.held[i].value;
      var next := if m.dir == Left then i - 1 else i + 1;
      && t.held == s.held[i := None] && t.saturated == s.saturated && t.log == s.log
      && (if 0 <= next < |s.boxes| then Sent(s, t, next, m) && t.exited == s.exited
          else t.boxes == s.boxes && t.dropped == s.dropped && t.exited == s.exited + [m])
      && t.owing == s.owing[i := t.dropped != s.dropped]
  {
  }

  // ---- The messages of one direction

  function Only(d: Dir, ms: seq<Msg>): seq<Msg> {
    if ms == [] then []
    else Only(d, ms[..|ms| - 1]) + if ms[|ms| - 1].dir == d then [ms[|ms| - 1]] else []
  }

  function Hand(d: Dir, h: Option<Msg>): seq<Msg> {
    if h.Some? && h.value.dir == d then [h.value] else []
  }

  /** The messages of direction d that thread i has fetched, in order. */
  function FetchedBy(log: seq<Fetched>, i: nat, d: Dir): seq<Msg> {
    if log == [] then [] else
    var f := log[|log| - 1];
    FetchedBy(log[..|log| - 1], i, d) + if f.thread == i && f.msg.dir == d then [f.msg] else []
  }

  /** The thread that is number k on the way of direction d, and the other way round. */
  function At(n: nat, d: Dir, k: nat): (i: nat)
    requires k < n
    ensures i < n
  {
    if d == Right then k else n - 1 - k
  }

  /** What a thread has of direction d: the message in hand, then its mailbox. */
  function Stage(s: Storm, d: Dir, i: nat): seq<Msg>
    requires i < |s.boxes| == |s.held|
  {
    Hand(d, s.held[i]) + Only(d, s.boxes[i])
  }

  /** The messages of direction d at the first k places, those nearest to place k first. */
  function Behind(s: Storm, d: Dir, k: nat): seq<Msg>
    requires k <= |s.boxes| == |s.held|
  {
    if k == 0 then [] else Stage(s, d, At(|s.boxes|, d, k - 1)) + Behind(s, d, k - 1)
  }

  /** The messages of direction d as place k sees them: those it has fetched, in order, those
      in its mailbox, and those behind it. Past the last place is the exit. */
  function Seen(s: Storm, d: Dir, k: nat): seq<Msg>
    requires k <= |s.boxes| == |s.held|
  {
    if k == |s.boxes| then Only(d, s.exited) + Behind(s, d, k)
    else
      var i := At(|s.boxes|, d, k);
      FetchedBy(s.log, i, d) + Only(d, s.boxes[i]) + Behind(s, d, k)
  }

  function Injected(s: Storm, d: Dir): nat { if d == Right then s.right else s.left }

  lemma OnlyMore(d: Dir, ms: seq<Msg>, m: Msg)
    ensures Only(d, ms + [m]) == Only(d, ms) + Hand(d, Some(m))
  {
    assert (ms + [m])[..|ms|] == ms;
  }

  lemma FetchedMore(log: seq<Fetched>, i: nat, d: Dir, f: Fetched)
    ensures FetchedBy(log + [f], i, d) == FetchedBy(log, i, d) + if f.thread == i then Hand(d, Some(f.msg)) else []
  {
    assert (log + [f])[..|log|] == log;
  }

  lemma {:induction false} OnlyFirst(d: Dir, ms: seq<Msg>)
    requires ms != []
    ensures Only(d, ms) == Hand(d, Some(ms[0])) + Only(d, ms[1..])
    decreases |ms|
  {
    if |ms| == 1 {
      assert ms[..0] == [] && ms[1..] == [];
    } else {
      var a, l := ms[..|ms| - 1], ms[|ms| - 1];
      OnlyFirst(d, a);
      assert ms[1..][..|ms| - 2] == a[1..];
      Associate(Hand(d, Some(ms[0])), Only(d, a[1..]), if l.dir == d then [l] else []);
    }
  }

  /** Same messages of direction d at the places from j to k - 1. */
  ghost predicate SameStages(s: Storm, t: Storm, d: Dir, j: nat, k: nat) {
    && |s.boxes| == |s.held| == |t.boxes| == |t.held| && k <= |s.boxes|
    && forall l | j <= l < k :: Stage(t, d, At(|s.boxes|, d, l)) == Stage(s, d, At(|s.boxes|, d, l))
  }

  /** Where the places from j to k - 1 have not changed, a common part of what is behind k lies
      before what is behind j. */
  lemma {:induction false} BehindFrame(s: Storm, t: Storm, d: Dir, j: nat, k: nat) returns (a: seq<Msg>)
    requires SameStages(s, t, d, j, k) && j <= k
    ensures Behind(s, d, k) == a + Behind(s, d, j) && Behind(t, d, k) == a + Behind(t, d, j)
    decreases k
  {
    hide Stage, At;
    if j == k {
      a := [];
    } else {
      var b := BehindFrame(s, t, d, j, k - 1);
      var x := Stage(s, d, At(|s.boxes|, d, k - 1));
      Associate(x, b, Behind(s, d, j));
      Associate(x, b, Behind(t, d, j));
      a := x + b;
    }
  }

  // ---- What one step does to the messages of one direction

  /** Keep: they are all still there. Lose: one found a full mailbox on its way. Gain and
      Refuse: the next one was injected, or found the first mailbox full. */
  datatype Effect = Keep | Lose(msg: Msg) | Gain(msg: Msg) | Refuse(msg: Msg)

  /** Whether a message that thread i passes on in direction d has a next mailbox, and it is full. */
  predicate Blocked(s: Storm, d: Dir, i: nat)
    requires i < |s.boxes|
  {
    var k := At(|s.boxes|, d, i);
    k + 1 < |s.boxes| && |s.boxes[At(|s.boxes|, d, k + 1)]| >= s.size
  }

  function EffectOf(s: Storm, e: Event, d: Dir): Effect
    requires |s.boxes| == |s.held| == |s.owing| > 0
  {
    match e
    case Timer(e) =>
      if e != d then Keep
      else if |s.boxes[At(|s.boxes|, d, 0)]| < s.size then Gain(Msg(d, Injected(s, d)))
      else Refuse(Msg(d, Injected(s, d)))
    case Forward(i) =>
      if i < |s.boxes| && s.held[i].Some? && s.held[i].value.dir == d && Blocked(s, d, i)
      then Lose(s.held[i].value) else Keep
    case _ => Keep
  }

  /** b is a without the message at i. */
  ghost predicate Removed(a: seq<Msg>, b: seq<Msg>, m: Msg, i: nat) {
    i < |a| && a[i] == m && b == a[..i] + a[i + 1..]
  }

  ghost predicate Moves(a: seq<Msg>, b: seq<Msg>, e: Effect) {
    match e
    case Lose(m) => b == a || exists i: nat :: Removed(a, b, m, i)
    case Gain(m) => b == a + [m]
    case _ => b == a
  }

  lemma FetchMoves(s: Storm, i: nat, d: Dir, k: nat)
    requires s.Shaped() && k <= |s.boxes|
    ensures Seen(Step(s, Fetch(i)), d, k) == Seen(s, d, k)
  {
    hide Behind, Only, FetchedBy;
    var t := Step(s, Fetch(i));
    if t != s {
      var m := s.boxes[i][0];
      OnlyFirst(d, s.boxes[i]);
      assert Stage(t, d, i) == Stage(s, d, i);
      BehindSame(s, t, d, k);
      if k < |s.boxes| {
        var o := At(|s.boxes|, d, k);
        FetchedMore(s.log, o, d, Fetched(i, m));
        if o == i {
          Associate(FetchedBy(s.log, i, d), Hand(d, Some(m)), Only(d, t.boxes[i]));
        }
      }
    }
  }

  lemma BehindSame(s: Storm, t: Storm, d: Dir, k: nat)
    requires SameStages(s, t, d, 0, k)
    ensures Behind(t, d, k) == Behind(s, d, k)
  {
    hide Stage, At;
    var a := BehindFrame(s, t, d, 0, k);
  }

  /** What a post with room does to the places: the message is the last one of its place. */
  lemma PostStages(s: Storm, i: nat, m: Msg, d: Dir)
    requires i < |s.boxes| == |s.held| && |s.boxes[i]| < s.size
    ensures var t := Post(s, i, m);
      && Only(d, t.boxes[i]) == Only(d, s.boxes[i]) + Hand(d, Some(m))
      && Stage(t, d, i) == Stage(s, d, i) + Hand(d, Some(m))
      && forall l | 0 <= l < |s.boxes| && l != i :: t.boxes[l] == s.boxes[l] && Stage(t, d, l) == Stage(s, d, l)
  {
    hide Only, Hand;
    OnlyMore(d, s.boxes[i], m);
    Associate(Hand(d, s.held[i]), Only(d, s.boxes[i]), Hand(d, Some(m)));
  }

  lemma InjectForeign(s: Storm, e: Dir, d: Dir, k: nat)
    requires s.Shaped() && k <= |s.boxes|
    requires e != d || |s.boxes[At(|s.boxes|, e, 0)]| >= s.size
    ensures Seen(Step(s, Timer(e)), d, k) == Seen(s, d, k)
  {
    hide Behind, Only, FetchedBy, Stage;
    var t := Step(s, Timer(e));
    var i := At(|s.boxes|, e, 0);
    if |s.boxes[i]| < s.size {
      PostStages(if e == Right then s.(right := s.right + 1) else s.(left := s.left + 1), i, Msg(e, Injected(s, e)), d);
    }
    StagesByValue(s, t, d);
    BehindSame(s, t, d, k);
  }

  lemma StagesByValue(s: Storm, t: Storm, d: Dir)
    requires |s.boxes| == |s.held| && t.held == s.held && |t.boxes| == |s.boxes|
    requires forall l | 0 <= l < |s.boxes| :: Only(d, t.boxes[l]) == Only(d, s.boxes[l])
    ensures SameStages(s, t, d, 0, |s.boxes|)
  {
    hide Only;
  }

  lemma BehindGains(s: Storm, t: Storm, d: Dir, k: nat, m: Msg)
    requires k > 0 && SameStages(s, t, d, 1, k)
    requires var i := At(|s.boxes|, d, 0); Stage(t, d, i) == Stage(s, d, i) + [m]
    ensures Behind(t, d, k) == Behind(s, d, k) + [m]
  {
    hide Stage, At;
    var a := BehindFrame(s, t, d, 1, k);
    Associate(a, Stage(s, d, At(|s.boxes|, d, 0)), [m]);
  }

  lemma InjectRoom(s: Storm, d: Dir, k: nat)
    requires s.Shaped() && k <= |s.boxes|
    requires |s.boxes[At(|s.boxes|, d, 0)]| < s.size
    ensures Seen(Step(s, Timer(d)), d, k) == Seen(s, d, k) + [Msg(d, Injected(s, d))]
  {
    hide Only, FetchedBy, Stage;
    var t := Step(s, Timer(d));
    var i := At(|s.boxes|, d, 0);
    var m := Msg(d, Injected(s, d));
    var s1 := if d == Right then s.(right := s.right + 1) else s.(left := s.left + 1);
    PostStages(s1, i, m, d);
    StageByValue(s, s1, d);
    if k == 0 {
      Associate(FetchedBy(s.log, i, d), Only(d, s.boxes[i]), [m]);
    } else {
      BehindGains(s, t, d, k, m);
      hide Behind;
    }
  }

  lemma StageByValue(s: Storm, t: Storm, d: Dir)
    requires |s.boxes| == |s.held| && t.held == s.held && t.boxes == s.boxes
    ensures forall l | 0 <= l < |s.boxes| :: Stage(t, d, l) == Stage(s, d, l)
  {
    hide Only;
  }

  /** The messages behind place k, when a message has gone from place p to the next. */
  lemma BehindPassed(s: Storm, t: Storm, d: Dir, p: nat, k: nat, m: Msg, y: seq<Msg>)
    requires p + 1 < |s.boxes| && SameStages(s, t, d, 0, p) && SameStages(s, t, d, p + 2, |s.boxes|)
    requires var n := |s.boxes|;
      && Stage(s, d, At(n, d, p)) == [m] + y && Stage(t, d, At(n, d, p)) == y
      && Stage(t, d, At(n, d, p + 1)) == Stage(s, d, At(n, d, p + 1)) + [m]
    requires k <= |s.boxes|
    ensures if k == p + 1 then Behind(s, d, k) == [m] + Behind(t, d, k) else Behind(t, d, k) == Behind(s, d, k)
  {
    hide Stage, At;
    BehindSame(s, t, d, if k <= p then k else p);
    if k > p {
      var z, b := Stage(s, d, At(|s.boxes|, d, p + 1)), Behind(s, d, p);
      Associate([m], y, b);
      assert Behind(s, d, p + 1) == [m] + Behind(t, d, p + 1);
      if k > p + 1 {
        Associate(z, [m], Behind(t, d, p + 1));
        assert Behind(t, d, p + 2) == Behind(s, d, p + 2);
        var a := BehindFrame(s, t, d, p + 2, k);
      }
    }
  }

  /** The messages behind place k, when the foremost one has gone from place p. */
  lemma BehindTaken(s: Storm, t: Storm, d: Dir, p: nat, k: nat, m: Msg, y: seq<Msg>) returns (a: seq<Msg>, b: seq<Msg>)
    requires p < k <= |s.boxes| && SameStages(s, t, d, 0, p) && SameStages(s, t, d, p + 1, k)
    requires var i := At(|s.boxes|, d, p); Stage(s, d, i) == [m] + y && Stage(t, d, i) == y
    ensures Behind(s, d, k) == a + ([m] + b) && Behind(t, d, k) == a + b
    ensures k == p + 1 ==> a == []
  {
    hide Stage, At;
    BehindSame(s, t, d, p);
    if k == p + 1 {
      a := [];
    } else {
      a := BehindFrame(s, t, d, p + 1, k);
    }
    b := y + Behind(s, d, p);
    Associate([m], y, Behind(s, d, p));
  }

  /** A thread passing its message on, in terms of places. */
  lemma ForwardIs(s: Storm, i: nat)
    requires s.Shaped() && i < |s.boxes| && s.held[i].Some?
    ensures
      var n, m := |s.boxes|, s.held[i].value;
      var s1, p := s.(held := s.held[i := None]), At(n, m.dir, i);
      Step(s, Forward(i)) == if p + 1 < n then Offer(s1, i, At(n, m.dir, p + 1), m) else s1.(exited := s.exited + [m])
  {
  }

  /** The message in hand is the first of its thread. */
  lemma EmptyHand(s: Storm, i: nat, d: Dir)
    requires i < |s.boxes| == |s.held| && s.held[i].Some?
    ensures var s1 := s.(held := s.held[i := None]);
      && Stage(s1, d, i) == Only(d, s.boxes[i])
      && Stage(s, d, i) == Hand(d, s.held[i]) + Only(d, s.boxes[i])
      && forall l | 0 <= l < |s.boxes| && l != i :: Stage(s1, d, l) == Stage(s, d, l)
  {
    hide Only;
  }

  lemma ForwardForeign(s: Storm, i: nat, d: Dir, k: nat)
    requires s.Shaped() && i < |s.boxes| && s.held[i].Some? && s.held[i].value.dir != d && k <= |s.boxes|
    ensures Seen(Step(s, Forward(i)), d, k) == Seen(s, d, k)
  {
    hide Behind, Only, FetchedBy, Stage, Step;
    ForwardIs(s, i);
    var n, m := |s.boxes|, s.held[i].value;
    var s1, p := s.(held := s.held[i := None]), At(n, m.dir, i);
    var t := Step(s, Forward(i));
    EmptyHand(s, i, d);
    OnlyMore(d, s.exited, m);
    if p + 1 < n && |s.boxes[At(n, m.dir, p + 1)]| < s.size {
      PostStages(s1, At(n, m.dir, p + 1), m, d);
    } else {
      StageByValue(s1, t, d);
    }
    BehindSame(s, t, d, k);
  }

  lemma ForwardRoom(s: Storm, i: nat, d: Dir, k: nat)
    requires s.Shaped() && i < |s.boxes| && s.held[i].Some? && s.held[i].value.dir == d && k <= |s.boxes|
    requires At(|s.boxes|, d, i) + 1 < |s.boxes| && !Blocked(s, d, i)
    ensures Seen(Step(s, Forward(i)), d, k) == Seen(s, d, k)
  {
    hide Behind, Only, FetchedBy, Stage, Step;
    ForwardIs(s, i);
    var n, m := |s.boxes|, s.held[i].value;
    var s1, p := s.(held := s.held[i := None]), At(n, d, i);
    var t, j := Step(s, Forward(i)), At(n, d, p + 1);
    EmptyHand(s, i, d);
    PostStages(s1, j, m, d);
    BehindPassed(s, t, d, p, k, m, Only(d, s.boxes[i]));
    if k == p + 1 {
      Associate(FetchedBy(s.log, j, d), Only(d, s.boxes[j]), [m]);
      Associate(FetchedBy(s.log, j, d) + Only(d, s.boxes[j]), [m], Behind(t, d, k));
    }
  }

  /** A message that finds the next mailbox full, or that leaves the chain. */
  lemma ForwardGone(s: Storm, i: nat, d: Dir, k: nat)
    requires s.Shaped() && i < |s.boxes| && s.held[i].Some? && s.held[i].value.dir == d && k <= |s.boxes|
    requires Blocked(s, d, i) || At(|s.boxes|, d, i) + 1 == |s.boxes|
    ensures Moves(Seen(s, d, k), Seen(Step(s, Forward(i)), d, k), EffectOf(s, Forward(i), d))
    ensures EffectOf(s, Forward(i), d).Lose? && k == |s.boxes| ==>
              exists x: nat :: Removed(Seen(s, d, k), Seen(Step(s, Forward(i)), d, k), s.held[i].value, x)
  {
    hide Behind, Only, FetchedBy, Stage, Step;
    ForwardIs(s, i);
    var n, m := |s.boxes|, s.held[i].value;
    var s1, p := s.(held := s.held[i := None]), At(n, d, i);
    var t := Step(s, Forward(i));
    EmptyHand(s, i, d);
    StageByValue(s1, t, d);
    if k <= p {
      BehindSame(s, t, d, k);
    } else {
      var a, b := BehindTaken(s, t, d, p, k, m, Only(d, s.boxes[i]));
      OnlyMore(d, s.exited, m);
      if Blocked(s, d, i) {
        var x := if k == n then Only(d, s.exited) else
          FetchedBy(s.log, At(n, d, k), d) + Only(d, s.boxes[At(n, d, k)]);
        Gap(x, a, b, m);
      } else {
        Associate(Only(d, s.exited), [m], b);
      }
    }
  }

  lemma Gap(x: seq<Msg>, a: seq<Msg>, b: seq<Msg>, m: Msg)
    ensures Removed(x + (a + ([m] + b)), x + (a + b), m, |x| + |a|)
  {
    var s := x + (a + ([m] + b));
    assert s[..|x| + |a|] == x + a && s[|x| + |a| + 1..] == b;
    Associate(x, a, b);
  }

  /** One step as every place, and the exit, see it. */
  lemma StepMoves(s: Storm, e: Event, d: Dir, k: nat)
    requires s.Shaped() && k <= |s.boxes|
    ensures Moves(Seen(s, d, k), Seen(Step(s, e), d, k), EffectOf(s, e, d))
    ensures EffectOf(s, e, d).Lose? && k == |s.boxes| ==>
              exists x: nat :: Removed(Seen(s, d, k), Seen(Step(s, e), d, k), EffectOf(s, e, d).msg, x)
  {
    hide Seen, Post, Behind, Only, FetchedBy, Stage;
    match e
    case Timer(c) =>
      if c == d && |s.boxes[At(|s.boxes|, d, 0)]| < s.size {
        InjectRoom(s, d, k);
      } else {
        InjectForeign(s, c, d, k);
      }
    case Fetch(i) =>
      FetchMoves(s, i, d, k);
    case Forward(i) =>
      if i < |s.boxes| && s.held[i].Some? {
        if s.held[i].value.dir != d {
          ForwardForeign(s, i, d, k);
        } else if At(|s.boxes|, d, i) + 1 < |s.boxes| && !Blocked(s, d, i) {
          ForwardRoom(s, i, d, k);
        } else {
          ForwardGone(s, i, d, k);
        }
      }
    case Flag(i) =>
      SeenByValue(s, Step(s, Flag(i)), d, k);
    case Clear =>
      SeenByValue(s, Step(s, Clear), d, k);
  }

  lemma SeenByValue(s: Storm, t: Storm, d: Dir, k: nat)
    requires k <= |s.boxes| == |s.held| && t.boxes == s.boxes && t.held == s.held
    requires t.exited == s.exited && t.log == s.log
    ensures Seen(t, d, k) == Seen(s, d, k)
  {
    hide Behind, Stage, Only, FetchedBy;
    StageByValue(s, t, d);
    BehindSame(s, t, d, k);
  }

  // ---- Every run

  /** Numbers grow along the sequence: what is nearest to the exit was injected first. */
  ghost predicate Ordered(a: seq<Msg>, d: Dir, n: nat) {
    && (forall i | 0 <= i < |a| :: a[i].dir == d && a[i].id < n)
    && (forall i, j | 0 <= i < j < |a| :: a[i].id < a[j].id)
  }

  /** The first n messages of direction d. */
  function All(d: Dir, n: nat): (a: seq<Msg>)
    ensures |a| == n
  {
    if n == 0 then [] else All(d, n - 1) + [Msg(d, n - 1)]
  }

  /** The messages of direction d that have left the chain, are in it, or have been lost. */
  ghost function Account(s: Storm, d: Dir): multiset<Msg>
    requires |s.boxes| == |s.held|
  {
    multiset(Seen(s, d, |s.boxes|)) + multiset(Only(d, s.dropped))
  }

  ghost predicate OrderedAt(s: Storm, d: Dir, k: nat)
    requires k <= |s.boxes| == |s.held|
  {
    Ordered(Seen(s, d, k), d, Injected(s, d))
  }

  ghost predicate Sound(s: Storm) {
    && s.Shaped()
    && (forall d, k: nat | k <= |s.boxes| :: OrderedAt(s, d, k))
    && (forall d :: Account(s, d) == multiset(All(d, Injected(s, d))))
  }

  /** What a step does to the counters and to the list of lost messages. */
  lemma StepCounts(s: Storm, e: Event, d: Dir)
    requires s.Shaped()
    ensures var t, c := Step(s, e), EffectOf(s, e, d);
      && Only(d, t.dropped) == Only(d, s.dropped) + (if c.Lose? || c.Refuse? then [c.msg] else [])
      && Injected(t, d) == Injected(s, d) + (if c.Gain? || c.Refuse? then 1 else 0)
      && (c.Gain? || c.Refuse? ==> c.msg == Msg(d, Injected(s, d)))
  {
    hide Only;
    match e
    case Timer(c) =>
      OnlyMore(d, s.dropped, Msg(c, Injected(s, c)));
    case Forward(i) =>
      if i < |s.boxes| && s.held[i].Some? {
        OnlyMore(d, s.dropped, s.held[i].value);
      }
    case _ =>
  }

  lemma OrderKept(a: seq<Msg>, b: seq<Msg>, e: Effect, d: Dir, n: nat)
    requires Ordered(a, d, n) && Moves(a, b, e)
    requires e.Gain? || e.Refuse? ==> e.msg == Msg(d, n)
    ensures Ordered(b, d, n + if e.Gain? || e.Refuse? then 1 else 0)
  {
    if e.Lose? && b != a {
      var i: nat :| Removed(a, b, e.msg, i);
      hide Ordered;
      OrderedRest(a, b, e.msg, i, d, n);
    }
  }

  lemma OrderedRest(a: seq<Msg>, b: seq<Msg>, m: Msg, i: nat, d: Dir, n: nat)
    requires Ordered(a, d, n) && Removed(a, b, m, i)
    ensures Ordered(b, d, n)
  {
    forall x | 0 <= x < |b| ensures b[x] == a[if x < i then x else x + 1] {}
    forall x, y | 0 <= x < y < |b| ensures b[x].id < b[y].id {
      var u, v := if x < i then x else x + 1, if y < i then y else y + 1;
      assert a[u].id < a[v].id;
    }
  }

  lemma RemovedCount(a: seq<Msg>, b: seq<Msg>, m: Msg, i: nat)
    requires Removed(a, b, m, i)
    ensures multiset(a) == multiset(b) + multiset{m}
  {
    assert a == a[..i] + [m] + a[i + 1..];
  }

  lemma MovesAccount(a: seq<Msg>, b: seq<Msg>, x: seq<Msg>, c: Effect)
    requires Moves(a, b, c) && (c.Lose? ==> exists i: nat :: Removed(a, b, c.msg, i))
    ensures multiset(b) + multiset(x + if c.Lose? || c.Refuse? then [c.msg] else [])
         == multiset(a) + multiset(x) + if c.Gain? || c.Refuse? then multiset{c.msg} else multiset{}
  {
    if c.Lose? {
      var i: nat :| Removed(a, b, c.msg, i);
      RemovedCount(a, b, c.msg, i);
    } else if c.Keep? {
      assert x + [] == x;
    }
  }

  lemma AllMore(d: Dir, n: nat)
    ensures multiset(All(d, n + 1)) == multiset(All(d, n)) + multiset{Msg(d, n)}
  {
  }

  lemma AccountKept(s: Storm, e: Event, d: Dir)
    requires s.Shaped() && Account(s, d) == multiset(All(d, Injected(s, d)))
    ensures Account(Step(s, e), d) == multiset(All(d, Injected(Step(s, e), d)))
  {
    hide Seen, Only, Step, EffectOf, Injected, Moves, Removed, Storm.Shaped, All;
    ShapedSizes(s);
    StepCounts(s, e, d);
    StepMoves(s, e, d, |s.boxes|);
    var c := EffectOf(s, e, d);
    MovesAccount(Seen(s, d, |s.boxes|), Seen(Step(s, e), d, |s.boxes|), Only(d, s.dropped), c);
    AllMore(d, Injected(s, d));
  }

  lemma StepSound(s: Storm, e: Event)
    requires Sound(s)
    ensures Sound(Step(s, e))
  {
    hide Seen, Only, Step, EffectOf, Account, Injected, Storm.Shaped;
    StepShaped(s, e);
    ShapedSizes(s);
    var t := Step(s, e);
    forall d, k: nat | k <= |t.boxes| ensures OrderedAt(t, d, k) {
      assert OrderedAt(s, d, k);
      StepCounts(s, e, d);
      StepMoves(s, e, d, k);
      OrderKept(Seen(s, d, k), Seen(t, d, k), EffectOf(s, e, d), d, Injected(s, d));
    }
    forall d ensures Account(t, d) == multiset(All(d, Injected(t, d))) {
      AccountKept(s, e, d);
    }
  }

  lemma ShapedSizes(s: Storm)
    requires s.Shaped()
    ensures |s.boxes| == |s.held| == |s.owing| > 0
  {
  }

  /** The chain of n threads before the storm, as the test sets it up. */
  function Start(n: nat, size: nat): (s: Storm)
    ensures |s.boxes| == |s.held| == |s.owing| == n
    ensures forall i | 0 <= i < n :: s.boxes[i] == [] && s.held[i] == None && !s.owing[i]
  {
    Storm(size, seq(n, i => []), seq(n, i => None), false, [], [], seq(n, i => false), 0, 0, 0, 0, [])
  }

  function After(s: Storm, es: seq<Event>): (t: Storm)
    requires |s.boxes| == |s.held| == |s.owing| > 0
    ensures |t.boxes| == |t.held| == |t.owing| == |s.boxes|
  {
    if es == [] then s else Step(After(s, es[..|es| - 1]), es[|es| - 1])
  }

  lemma {:induction false} StartBehind(n: nat, size: nat, d: Dir, k: nat)
    requires k <= n
    ensures Behind(Start(n, size), d, k) == []
  {
    hide Start, At;
    if k > 0 {
      StartBehind(n, size, d, k - 1);
      assert Stage(Start(n, size), d, At(n, d, k - 1)) == [];
    }
  }

  lemma {:induction false} NoneOwing(s: seq<bool>)
    requires forall i | 0 <= i < |s| :: !s[i]
    ensures Trues(s) == 0
    decreases |s|
  {
    if s != [] {
      NoneOwing(s[..|s| - 1]);
    }
  }

  lemma StartSound(n: nat, size: nat)
    requires n > 0
    ensures Sound(Start(n, size))
  {
    hide Behind;
    var s := Start(n, size);
    NoneOwing(s.owing);
    forall d, k: nat | k <= n ensures Seen(s, d, k) == [] {
      StartBehind(n, size, d, k);
    }
  }

  lemma {:induction false} RunSound(n: nat, size: nat, es: seq<Event>)
    requires n > 0
    ensures Sound(After(Start(n, size), es))
    decreases |es|
  {
    hide Sound, Step, Start;
    if es == [] {
      StartSound(n, size);
    } else {
      RunSound(n, size, es[..|es| - 1]);
      StepSound(After(Start(n, size), es[..|es| - 1]), es[|es| - 1]);
    }
  }

  /** Whatever the interleaving, messages of one direction leave the chain in the order in which
      they were injected. */
  lemma ExitInOrder(n: nat, size: nat, es: seq<Event>, d: Dir)
    requires n > 0
    ensures var s := After(Start(n, size), es); Ordered(Only(d, s.exited), d, Injected(s, d))
  {
    hide After, Start, Only, Behind, Injected;
    var s := After(Start(n, size), es);
    RunSound(n, size, es);
    assert OrderedAt(s, d, n);
    OrderedPrefix(Only(d, s.exited), Behind(s, d, n), d, Injected(s, d));
  }

  lemma OrderedPrefix(a: seq<Msg>, b: seq<Msg>, d: Dir, n: nat)
    requires Ordered(a + b, d, n)
    ensures Ordered(a, d, n)
  {
    forall i | 0 <= i < |a| ensures a[i] == (a + b)[i] {}
  }

  /** Every injected message of a direction has left the chain, is queued or in hand in it, or
      has been dropped, and is in one of these only once. Every drop sets the flag once, at once or
      as the next thing its thread does, and the flag tells exactly whether it has been set since
      it was cleared; so once no thread is in between, a drop after which nothing was cleared
      leaves it set. */
  lemma Conserved(n: nat, size: nat, es: seq<Event>, d: Dir)
    requires n > 0
    ensures var s := After(Start(n, size), es);
      && multiset(Only(d, s.exited)) + multiset(Behind(s, d, n)) + multiset(Only(d, s.dropped))
         == multiset(All(d, Injected(s, d)))
      && |Only(d, s.exited)| + |Behind(s, d, n)| + |Only(d, s.dropped)| == Injected(s, d)
      && |s.dropped| == s.flagged + Trues(s.owing)
      && (s.saturated <==> s.mark < s.flagged)
      && forall i | 0 <= i < n :: |s.boxes[i]| <= size
  {
    hide After, Start, Only, Behind, Injected;
    var s := After(Start(n, size), es);
    RunSound(n, size, es);
    SizeKept(n, size, es);
    assert Account(s, d) == multiset(All(d, Injected(s, d)));
    SameLength(Only(d, s.exited) + Behind(s, d, n) + Only(d, s.dropped), All(d, Injected(s, d)));
  }

  lemma {:induction false} NothingCleared(n: nat, size: nat, es: seq<Event>)
    requires n > 0 && forall i | 0 <= i < |es| :: !es[i].Clear?
    ensures After(Start(n, size), es).mark == 0
    decreases |es|
  {
    if es != [] {
      NothingCleared(n, size, es[..|es| - 1]);
    }
  }

  /** On every run the flag is set if and only if there are more drops than settings before the
      last clear and threads that still owe one; so within a round, if and only if there are more
      drops than such threads. */
  lemma DropSaturates(n: nat, size: nat, es: seq<Event>)
    requires n > 0
    ensures var s := After(Start(n, size), es);
      && (s.saturated <==> |s.dropped| > s.mark + Trues(s.owing))
      && ((forall i | 0 <= i < |es| :: !es[i].Clear?) ==> (s.saturated <==> |s.dropped| > Trues(s.owing)))
  {
    hide After, Start, Trues;
    RunSound(n, size, es);
    if forall i | 0 <= i < |es| :: !es[i].Clear? {
      NothingCleared(n, size, es);
    }
  }

  lemma AfterNext(s: Storm, es: seq<Event>, e: Event)
    requires |s.boxes| == |s.held| == |s.owing| > 0
    ensures After(s, es + [e]) == Step(After(s, es), e)
  {
    hide Step;
    assert (es + [e])[..|es|] == es;
  }

  /** Two threads with mailboxes of one place: both mailboxes, the first thread's hand, and how
      many messages have been sent to the right. */
  ghost predicate Two(s: Storm, a: seq<Msg>, b: seq<Msg>, hand: Option<Msg>, r: nat) {
    && |s.boxes| == |s.held| == |s.owing| == 2 && s.size == 1
    && s.boxes[0] == a && s.boxes[1] == b && s.held[0] == hand && s.right == r
    && !s.owing[0] && !s.saturated && s.dropped == []
  }

  lemma TwoInject(s: Storm, b: seq<Msg>, r: nat)
    requires Two(s, [], b, None, r)
    ensures Two(Step(s, Timer(Right)), [Msg(Right, r)], b, None, r + 1)
  {
  }

  lemma TwoFetch(s: Storm, m: Msg, b: seq<Msg>, r: nat)
    requires Two(s, [m], b, None, r)
    ensures Two(Step(s, Fetch(0)), [], b, Some(m), r)
  {
  }

  lemma TwoPass(s: Storm, m: Msg, r: nat)
    requires Two(s, [], [], Some(m), r) && m.dir == Right
    ensures Two(Step(s, Forward(0)), [], [m], None, r)
  {
  }

  /** The six steps of a run in which the first thread's second message is refused. */
  function Refusal(): seq<Event> { [Timer(Right), Fetch(0), Forward(0), Timer(Right), Fetch(0), Forward(0)] }

  lemma AfterRefusal(k: nat)
    requires k < 6
    ensures After(Start(2, 1), Refusal()[..k + 1]) == Step(After(Start(2, 1), Refusal()[..k]), Refusal()[k])
  {
    hide Step, Start;
    AfterNext(Start(2, 1), Refusal()[..k], Refusal()[k]);
    assert Refusal()[..k] + [Refusal()[k]] == Refusal()[..k + 1];
  }

  /** A run in which a message has been dropped and the flag is not set, because the thread has
      not come to it yet. */
  lemma DropBeforeFlag()
    ensures var s := After(Start(2, 1), Refusal()); s.dropped == [Msg(Right, 1)] && s.owing[0] && !s.saturated
  {
    var s := After(Start(2, 1), Refusal()[..5]);
    RefusalTo(5);
    AfterRefusal(5);
    assert Refusal()[..6] == Refusal();
    hide After, Start, Refusal;
    assert s.held[0] == Some(Msg(Right, 1));
  }

  /** The state after each of the first steps. */
  lemma {:induction false} RefusalTo(k: nat)
    requires k <= 5
    ensures var s, r0, r1 := After(Start(2, 1), Refusal()[..k]), Msg(Right, 0), Msg(Right, 1);
      match k
      case 0 => Two(s, [], [], None, 0)
      case 1 => Two(s, [r0], [], None, 1)
      case 2 => Two(s, [], [], Some(r0), 1)
      case 3 => Two(s, [], [r0], None, 1)
      case 4 => Two(s, [r1], [r0], None, 2)
      case _ => Two(s, [], [r0], Some(r1), 2)
  {
    hide Step, Two;
    if k == 0 {
      TwoStart();
    } else {
      RefusalTo(k - 1);
      AfterRefusal(k - 1);
      var s, r0, r1 := After(Start(2, 1), Refusal()[..k - 1]), Msg(Right, 0), Msg(Right, 1);
      match k
      case 1 => TwoInject(s, [], 0);
      case 2 => TwoFetch(s, r0, [], 1);
      case 3 => TwoPass(s, r0, 1);
      case 4 => TwoInject(s, [r0], 1);
      case _ => TwoFetch(s, r1, [r0], 2);
    }
  }

  lemma TwoStart()
    ensures Two(Start(2, 1), [], [], None, 0)
  {
  }

  lemma SameLength(a: seq<Msg>, b: seq<Msg>)
    requires multiset(a) == multiset(b)
    ensures |a| == |b|
  {
    assert |multiset(a)| == |a|;
  }

  lemma {:induction false} SizeKept(n: nat, size: nat, es: seq<Event>)
    requires n > 0
    ensures After(Start(n, size), es).size == size
    decreases |es|
  {
    if es != [] {
      SizeKept(n, size, es[..|es| - 1]);
    }
  }

  lemma {:induction false} FetchedGrows(log: seq<Fetched>, x: nat, y: nat, i: nat, d: Dir)
    requires x <= y <= |log|
    ensures FetchedBy(log[..x], i, d) <= FetchedBy(log[..y], i, d)
    decreases y
  {
    if x < y {
      FetchedGrows(log, x, y - 1, i, d);
      assert log[..y] == log[..y - 1] + [log[y - 1]];
      FetchedMore(log[..y - 1], i, d, log[y - 1]);
    }
  }

  /** Every thread fetches the messages of a direction in the order of their injection, so no
      thread ever fetches a message twice. */
  lemma FetchedOnce(n: nat, size: nat, es: seq<Event>, x: nat, y: nat)
    requires n > 0 && x < y < |After(Start(n, size), es).log|
    ensures var log := After(Start(n, size), es).log;
      && log[x] != log[y]
      && (log[x].thread == log[y].thread && log[x].msg.dir == log[y].msg.dir ==> log[x].msg.id < log[y].msg.id)
  {
    hide After, Start, Only, Behind, Injected, FetchedBy;
    var s := After(Start(n, size), es);
    var log := s.log;
    var i, d := log[x].thread, log[x].msg.dir;
    if log[y].thread == i && log[y].msg.dir == d {
      RunSound(n, size, es);
      var k := At(n, d, i);
      assert OrderedAt(s, d, k);
      var f := FetchedBy(log, i, d);
      OrderedPrefix(f + Only(d, s.boxes[i]), Behind(s, d, k), d, Injected(s, d));
      OrderedPrefix(f, Only(d, s.boxes[i]), d, Injected(s, d));
      OrderedLog(log, x, y, Injected(s, d));
    }
  }

  lemma OrderedLog(log: seq<Fetched>, x: nat, y: nat, n: nat)
    requires x < y < |log| && log[x].thread == log[y].thread && log[x].msg.dir == log[y].msg.dir
    requires Ordered(FetchedBy(log, log[x].thread, log[x].msg.dir), log[x].msg.dir, n)
    ensures log[x].msg.id < log[y].msg.id
  {
    hide FetchedBy;
    FetchedAt(log, x);
    FetchedAt(log, y);
    FetchedGrows(log, x + 1, y, log[x].thread, log[x].msg.dir);
  }

  /** Where a fetch is in the list of its thread. */
  lemma FetchedAt(log: seq<Fetched>, x: nat)
    requires x < |log|
    ensures var f := log[x];
      var p := |FetchedBy(log[..x], f.thread, f.msg.dir)|;
      && p + 1 == |FetchedBy(log[..x + 1], f.thread, f.msg.dir)| <= |FetchedBy(log, f.thread, f.msg.dir)|
      && FetchedBy(log, f.thread, f.msg.dir)[p] == f.msg
  {
    var f := log[x];
    assert log[..x + 1] == log[..x] + [f] && log[..|log|] == log;
    FetchedMore(log[..x], f.thread, f.msg.dir, f);
    FetchedGrows(log, x + 1, |log|, f.thread, f.msg.dir);
  }

  // ---- The callbacks and the threads

  function Dirs(ms: seq<Msg>): (ds: seq<Dir>)
    ensures |ds| == |ms| && forall i | 0 <= i < |ms| :: ds[i] == ms[i].dir
  {
    seq(|ms|, i requires 0 <= i < |ms| => ms[i].dir)
  }

  /** The next thread. The number is unsigned, so going left from the first thread gives a
      number past the last. */
  function Target(me: nat, d: Dir): (target: nat)
    requires me < 0xFFFF_FFFF
    ensures d == Right ==> target == me + 1
    ensures d == Left && me > 0 ==> target == me - 1
    ensures d == Left && me == 0 ==> target == 0xFFFF_FFFF
  {
    (me + if d == Left then 0xFFFF_FFFF else 1) % 0x1_0000_0000
  }

  /** The program's state: a message is only its direction. The state with numbered messages
      is there for the proofs. */
  class Chain {
    const size: nat
    var mb: seq<seq<Dir>>
    var msg: seq<Option<Dir>>     // each thread's local message
    var refused: seq<bool>        // each thread's result of the post
    var saturated: bool
    ghost var s: Storm

    ghost predicate Valid()
      reads this
    {
      && s.Shaped() && s.size == size && s.saturated == saturated
      && |mb| == |msg| == |s.boxes| <= 0xFFFF_FFFF && refused == s.owing
      && (forall i | 0 <= i < |mb| :: mb[i] == Dirs(s.boxes[i]))
      && (forall i | 0 <= i < |msg| :: msg[i] == if s.held[i].None? then None else Some(s.held[i].value.dir))
    }

    constructor (n: nat, size: nat)
      requires 0 < n <= 0xFFFF_FFFF
      ensures Valid() && s == Start(n, size)
    {
      this.size := size;
      mb := seq(n, i => []);
      msg := seq(n, i => None);
      refused := seq(n, i => false);
      saturated := false;
      s := Start(n, size);
      new;
      NoneOwing(s.owing);
    }

    /** A callback's post, with the flag set under the same lock if the mailbox is full. */
    method PostTo(i: nat, d: Dir, ghost m: Msg)
      requires Valid() && i < |mb| && m.dir == d
      modifies `mb, `saturated, `s
      ensures Valid() && s == Post(old(s), i, m)
    {
      if |mb[i]| < size {
        mb := mb[i := mb[i] + [d]];
      } else {
        saturated := true;
      }
      s := Post(s, i, m);
    }

    method Gpt1Callback()
      requires Valid()
      modifies `mb, `saturated, `s
      ensures Valid() && s == Step(old(s), Timer(Right))
    {
      s := s.(right := s.right + 1);
      PostTo(0, Right, Msg(Right, s.right - 1));
    }

    method Gpt2Callback()
      requires Valid()
      modifies `mb, `saturated, `s
      ensures Valid() && s == Step(old(s), Timer(Left))
    {
      s := s.(left := s.left + 1);
      PostTo(|mb| - 1, Left, Msg(Left, s.left - 1));
    }

    /** A thread that waits for a message gets one when there is one. */
    method FetchMessage(me: nat)
      requires Valid() && me < |mb| && msg[me].None? && !refused[me] && mb[me] != []
      modifies `mb, `msg, `s
      ensures Valid() && s == Step(old(s), Fetch(me)) && msg[me].Some?
    {
      msg := msg[me := Some(mb[me][0])];
      mb := mb[me := mb[me][1..]];
      s := Step(s, Fetch(me));
    }

    /** A thread's post to the next thread, or the end of the chain. */
    method SendOn(me: nat)
      requires Valid() && me < |mb| && msg[me].Some?
      modifies `mb, `msg, `refused, `s
      ensures Valid() && s == Step(old(s), Forward(me)) && msg[me].None?
    {
      hide Target, Trues;
      var d := msg[me].value;
      ghost var m := s.held[me].value;
      StepShaped(s, Forward(me));
      var target := Target(me, d);
      msg := msg[me := None];
      if target < |mb| {
        if |mb[target]| < size {
          mb := mb[target := mb[target] + [d]];
        } else {
          refused := refused[me := true];
        }
      }
      s := Step(s, Forward(me));
    }

    /** After a refused post the thread sets the flag. */
    method SetFlag(me: nat)
      requires Valid() && me < |mb| && refused[me]
      modifies `refused, `saturated, `s
      ensures Valid() && s == Step(old(s), Flag(me)) && saturated
    {
      hide Trues;
      StepShaped(s, Flag(me));
      refused := refused[me := false];
      saturated := true;
      s := Step(s, Flag(me));
    }

    /** The test clears the flag before each round. */
    method ClearFlag()
      requires Valid()
      modifies `saturated, `s
      ensures Valid() && s == Step(old(s), Clear) && !saturated
    {
      saturated := false;
      s := Step(s, Clear);
    }
  }
}
