/**
 The life of streams in a room, as a system of handlers: the main thread runs the
 room's methods and the shutdown notifications, each worker thread runs, in order,
 what was posted to it (src/signaling/room.cpp, src/transport/webrtc_stream.cpp,
 src/transport/publish_stream.cpp).
 */
module RoomProtocol {
  /** A stream object: its identity, its id and the worker thread it lives on. */
  datatype Stream = Stream(object: nat, id: string, worker: nat)

  /** What is posted to worker threads. */
  datatype Task =
    | Stop(stream: Stream)
    | Register(publisher: Stream, observer: Stream)
    | Unregister(publisher: Stream, observer: Stream)

  function WorkerOf(t: Task): nat {
    if t.Stop? then t.stream.worker else t.publisher.worker
  }

  ghost predicate Owns(m: map<string, set<Stream>>, k: string, s: Stream) {
    k in m && s in m[k]
  }

  ghost predicate In(m: map<string, set<Stream>>, s: Stream) {
    exists k :: Owns(m, k, s)
  }

  /** No participant is kept with nothing, and a stream has one owner. */
  ghost predicate Tidy(m: map<string, set<Stream>>) {
    && (forall k :: k in m ==> m[k] != {})
    && (forall k, l, s :: Owns(m, k, s) && Owns(m, l, s) ==> k == l)
  }

  /** The room's own fields, touched by the main thread only. */
  datatype Maps = Maps(participants: set<string>,
                       publishs: map<string, set<Stream>>,
                       subscribes: map<string, set<Stream>>,
                       publishSubscribes: map<Stream, set<Stream>>)
  {
    ghost predicate Alive(s: Stream) {
      In(publishs, s) || In(subscribes, s)
    }

    /** The subscribe streams that follow publish stream p. */
    ghost function Followers(p: Stream): set<Stream> {
      if p in publishSubscribes then publishSubscribes[p] else {}
    }

    /** StreamIdExist. */
    ghost predicate IdExists(id: string) {
      exists s :: Alive(s) && s.id == id
    }

    ghost predicate OwnedBy(k: string, s: Stream) {
      Owns(publishs, k, s) || Owns(subscribes, k, s)
    }

    ghost predicate IdsApart() {
      && (forall s, t :: Alive(s) && Alive(t) && s.id == t.id ==> s == t)
      && (forall s :: !(In(publishs, s) && In(subscribes, s)))
    }

    ghost predicate FollowersAgree() {
      && (forall p :: p in publishSubscribes ==> In(publishs, p))
      && (forall p, s :: s in Followers(p) ==> In(subscribes, s))
      && (forall p, q, s :: s in Followers(p) && s in Followers(q) ==> p == q)
    }

    /** The three maps agree with each other, and ids tell streams apart. */
    ghost predicate Consistent() {
      Tidy(publishs) && Tidy(subscribes) && IdsApart() && FollowersAgree()
    }
  }

  // ---------------------------------------------------------------------
  // What the room's methods do to its fields, and what they post.

  function AddTo(m: map<string, set<Stream>>, k: string, s: Stream): map<string, set<Stream>> {
    m[k := (if k in m then m[k] else {}) + {s}]
  }

  ghost predicate Leaves(a: Maps, b: Maps, tasks: seq<Task>, participant: string) {
    && b == a.(participants := a.participants - {participant})
    && forall t :: t in tasks <==> t.Stop? && a.OwnedBy(participant, t.stream)
  }

  ghost predicate Publishes(a: Maps, b: Maps, tasks: seq<Task>, participant: string, s: Stream) {
    && participant in a.participants && !a.IdExists(s.id)
    && b == a.(publishs := AddTo(a.publishs, participant, s))
    && tasks == []
  }

  ghost predicate Subscribes(a: Maps, b: Maps, tasks: seq<Task>, src: string, dst: string, p: Stream, s: Stream) {
    && src in a.participants && dst in a.participants
    && Owns(a.publishs, dst, p) && !a.IdExists(s.id)
    && b == a.(subscribes := AddTo(a.subscribes, src, s),
               publishSubscribes := a.publishSubscribes[p := a.Followers(p) + {s}])
    && tasks == [Register(p, s)]
  }

  function Rest(streams: set<Stream>, id: string): set<Stream> {
    set s | s in streams && s.id != id
  }

  /** A map of streams without the one with this id, and without empty sets. */
  function Without(m: map<string, set<Stream>>, id: string): map<string, set<Stream>> {
    map k | k in m && Rest(m[k], id) != {} :: Rest(m[k], id)
  }

  /** The shutdown handler: the stream with this id leaves all maps; the followers of
      a publish stream are told to stop; observer lists are told to let go. */
  ghost predicate ShutsDown(a: Maps, b: Maps, tasks: seq<Task>, id: string) {
    && b.participants == a.participants
    && b.publishs == Without(a.publishs, id)
    && b.subscribes == Without(a.subscribes, id)
    && b.publishSubscribes == (map p | p in a.publishSubscribes && p.id != id :: Rest(a.publishSubscribes[p], id))
    && forall t :: t in tasks <==>
         match t
         case Stop(s) => exists p: Stream :: p.id == id && s in a.Followers(p)
         case Register(_, _) => false
         case Unregister(p, s) => s in a.Followers(p) && (p.id == id || s.id == id)
  }

  // ---------------------------------------------------------------------
  // The whole system.

  datatype State = State(
    maps: Maps,
    /** Posted to worker threads and not yet run, oldest first. */
    posted: seq<Task>,
    /** The observer list of each publish stream. */
    observers: map<Stream, set<Stream>>,
    /** Streams whose once-only flag is up. */
    stoped: set<Stream>,
    /** Shutdown notifications so far; the main thread has run the first `handled`. */
    notified: seq<Stream>,
    handled: nat,
    /** Streams that ever entered a map, and streams that ever were told to stop. */
    created: set<Stream>,
    doomed: set<Stream>)
  {
    function Observers(p: Stream): set<Stream> {
      if p in observers then observers[p] else {}
    }

    /** Shutdown(): flag and notification, once. */
    function ShutdownOnce(s: Stream): State {
      if s in stoped then this else this.(stoped := stoped + {s}, notified := notified + [s])
    }

    /** Nothing is posted anywhere. */
    predicate Quiet() {
      posted == [] && handled == |notified|
    }
  }

  function Observed(list: set<Stream>, t: Task, p: Stream): set<Stream> {
    match t
    case Stop(_) => list
    case Register(q, o) => if q == p then list + {o} else list
    case Unregister(q, o) => if q == p then list - {o} else list
  }

  /** The observer list of p once everything posted has run. */
  function Drain(list: set<Stream>, posted: seq<Task>, p: Stream): set<Stream>
    decreases |posted|
  {
    if posted == [] then list else Drain(Observed(list, posted[0], p), posted[1..], p)
  }

  /** Notifications go out once per stopped stream, and those not yet handled are of
      streams still in the maps. */
  ghost predicate Flags(st: State) {
    && (forall i, j :: 0 <= i < j < |st.notified| ==> st.notified[i] != st.notified[j])
    && (forall s :: s in st.notified <==> s in st.stoped)
    && st.handled <= |st.notified|
    && (forall i :: 0 <= i < |st.notified| ==> (st.maps.Alive(st.notified[i]) <==> i >= st.handled))
    && st.stoped <= st.created
    && (forall s :: st.maps.Alive(s) ==> s in st.created)
    && (forall s :: s in st.created && s !in st.stoped ==> st.maps.Alive(s))
  }

  /** Every stream told to stop has shut down or has it posted. */
  ghost predicate WillStop(st: State) {
    && st.doomed <= st.created
    && (forall s :: s in st.doomed && s !in st.stoped ==> Stop(s) in st.posted)
    && (forall s :: Stop(s) in st.posted ==> s in st.created)
  }

  /** A subscribe stream follows somebody or was told to stop. */
  ghost predicate Followed(st: State) {
    forall s :: In(st.maps.subscribes, s) ==> s in st.doomed || exists p :: s in st.maps.Followers(p)
  }

  /** Observer lists lag behind the maps by what is posted. */
  ghost predicate InStep(st: State) {
    forall p :: Drain(st.Observers(p), st.posted, p) == st.maps.Followers(p)
  }

  ghost predicate Invariant(st: State) {
    st.maps.Consistent() && Flags(st) && WillStop(st) && Followed(st) && InStep(st)
  }

  /** The step of a room method: its effect on the maps, and what it posts. */
  function AfterMethod(st: State, maps: Maps, tasks: seq<Task>, created: set<Stream>, doomed: set<Stream>): State {
    st.(maps := maps, posted := st.posted + tasks, created := st.created + created, doomed := st.doomed + doomed)
  }

  ghost predicate Stopped(tasks: seq<Task>, doomed: set<Stream>) {
    forall s :: s in doomed <==> Stop(s) in tasks
  }

  ghost predicate JoinStep(a: State, b: State, participant: string) {
    b == a.(maps := a.maps.(participants := a.maps.participants + {participant}))
  }

  ghost predicate LeaveStep(a: State, b: State, participant: string) {
    exists tasks, doomed :: LeaveWith(a, b, participant, tasks, doomed)
  }

  ghost predicate LeaveWith(a: State, b: State, participant: string, tasks: seq<Task>, doomed: set<Stream>) {
    && Leaves(a.maps, b.maps, tasks, participant) && Stopped(tasks, doomed)
    && b == AfterMethod(a, b.maps, tasks, {}, doomed)
  }

  ghost predicate PublishStep(a: State, b: State, participant: string, s: Stream) {
    && s !in a.created
    && Publishes(a.maps, b.maps, [], participant, s) && b == AfterMethod(a, b.maps, [], {s}, {})
  }

  ghost predicate SubscribeStep(a: State, b: State, src: string, dst: string, p: Stream, s: Stream) {
    && s !in a.created
    && Subscribes(a.maps, b.maps, [Register(p, s)], src, dst, p, s)
    && b == AfterMethod(a, b.maps, [Register(p, s)], {s}, {})
  }

  /** A socket, ICE or DTLS failure shuts a stream down from its own thread. */
  ghost predicate ErrorStep(a: State, b: State, s: Stream) {
    s in a.created && b == a.ShutdownOnce(s)
  }

  /** The main thread runs the oldest notification. */
  ghost predicate MainStep(a: State, b: State) {
    exists tasks, doomed :: MainWith(a, b, tasks, doomed)
  }

  ghost predicate MainWith(a: State, b: State, tasks: seq<Task>, doomed: set<Stream>) {
    && a.handled < |a.notified|
    && ShutsDown(a.maps, b.maps, tasks, a.notified[a.handled].id) && Stopped(tasks, doomed)
    && b == AfterMethod(a, b.maps, tasks, {}, doomed).(handled := a.handled + 1)
  }

  /** Some worker runs the oldest of the tasks posted to it. */
  ghost predicate WorkerStep(a: State, b: State, i: nat) {
    && i < |a.posted|
    && (forall j :: 0 <= j < i ==> WorkerOf(a.posted[j]) != WorkerOf(a.posted[i]))
    && b == Ran(a.(posted := a.posted[..i] + a.posted[i + 1..]), a.posted[i])
  }

  /** What a task does when it runs. */
  function Ran(st: State, t: Task): State {
    match t
    case Stop(s) => st.ShutdownOnce(s)
    case Register(p, _) => st.(observers := st.observers[p := Observed(st.Observers(p), t, p)])
    case Unregister(p, _) => st.(observers := st.observers[p := Observed(st.Observers(p), t, p)])
  }

  ghost predicate HandlerStep(a: State, b: State) {
    MainStep(a, b) || exists i :: WorkerStep(a, b, i)
  }

  ghost predicate Next(a: State, b: State) {
    || (exists k :: JoinStep(a, b, k))
    || (exists k :: LeaveStep(a, b, k))
    || (exists k, s :: PublishStep(a, b, k, s))
    || (exists src, dst, p, s :: SubscribeStep(a, b, src, dst, p, s))
    || (exists s :: ErrorStep(a, b, s))
    || HandlerStep(a, b)
  }

  ghost const INITIAL := State(Maps({}, map[], map[], map[]), [], map[], {}, [], 0, {}, {})

  lemma InitialInvariant()
    ensures Invariant(INITIAL)
  {
  }

  // ---------------------------------------------------------------------
  // Observer lists.

  lemma {:induction false} DrainAppend(list: set<Stream>, a: seq<Task>, b: seq<Task>, p: Stream)
    ensures Drain(list, a + b, p) == Drain(Drain(list, a, p), b, p)
    decreases |a|
  {
    if a == [] {
      assert a + b == b;
    } else {
      assert (a + b)[1..] == a[1..] + b;
      DrainAppend(Observed(list, a[0], p), a[1..], b, p);
    }
  }

  lemma DrainOne(list: set<Stream>, t: Task, p: Stream)
    ensures Drain(list, [t], p) == Observed(list, t, p)
  {
  }

  /** The worker of p may run its oldest task first, or another worker its own. */
  lemma {:induction false} DrainRan(list: set<Stream>, posted: seq<Task>, i: nat, p: Stream)
    requires i < |posted|
    requires forall j :: 0 <= j < i ==> WorkerOf(posted[j]) != WorkerOf(posted[i])
    ensures Drain(list, posted, p) == Drain(Observed(list, posted[i], p), posted[..i] + posted[i + 1..], p)
    decreases i
  {
    var t, rest := posted[i], posted[..i] + posted[i + 1..];
    if i == 0 {
      assert rest == posted[1..];
    } else {
      var first := posted[0];
      DrainRan(Observed(list, first, p), posted[1..], i - 1, p);
      assert posted[1..][..i - 1] + posted[1..][i..] == rest[1..];
      assert WorkerOf(first) != WorkerOf(t);
      assert Observed(Observed(list, first, p), t, p) == Observed(Observed(list, t, p), first, p);
    }
  }

  /** Tasks without registrations only take observers away. */
  lemma {:induction false} DrainUnregisters(list: set<Stream>, tasks: seq<Task>, p: Stream)
    requires forall t :: t in tasks ==> !t.Register?
    ensures Drain(list, tasks, p) == set o | o in list && Unregister(p, o) !in tasks
    decreases |tasks|
  {
    if tasks != [] {
      var first, rest := tasks[0], tasks[1..];
      assert tasks == [first] + rest;
      forall t | t in rest ensures !t.Register? {
        assert t in tasks;
      }
      DrainUnregisters(Observed(list, first, p), rest, p);
      forall o: Stream ensures Unregister(p, o) in tasks <==> first == Unregister(p, o) || Unregister(p, o) in rest {
      }
    }
  }

  // ---------------------------------------------------------------------
  // The maps.

  lemma Added(m: map<string, set<Stream>>, k: string, s: Stream)
    ensures forall x :: In(AddTo(m, k, s), x) <==> In(m, x) || x == s
    ensures Tidy(m) && !In(m, s) ==> Tidy(AddTo(m, k, s))
  {
    var after := AddTo(m, k, s);
    forall l, x ensures Owns(after, l, x) <==> Owns(m, l, x) || (l == k && x == s) {
    }
    assert Owns(after, k, s);
  }

  lemma Removed(m: map<string, set<Stream>>, id: string)
    ensures forall x :: In(Without(m, id), x) <==> In(m, x) && x.id != id
    ensures Tidy(m) ==> Tidy(Without(m, id))
  {
    var after := Without(m, id);
    forall k, x ensures Owns(after, k, x) <==> Owns(m, k, x) && x.id != id {
      if Owns(m, k, x) && x.id != id {
        assert x in Rest(m[k], id);
      }
    }
  }

  lemma AfterPublish(a: Maps, b: Maps, k: string, s: Stream)
    requires a.Consistent() && Publishes(a, b, [], k, s)
    ensures b.Consistent()
    ensures forall x :: b.Alive(x) <==> a.Alive(x) || x == s
    ensures b.subscribes == a.subscribes && b.publishSubscribes == a.publishSubscribes
  {
    hide In, Tidy, AddTo;
    Added(a.publishs, k, s);
    assert !a.Alive(s);
    forall p ensures b.Followers(p) == a.Followers(p) {
    }
  }

  lemma AfterSubscribe(a: Maps, b: Maps, src: string, dst: string, p: Stream, s: Stream)
    requires a.Consistent() && Subscribes(a, b, [Register(p, s)], src, dst, p, s)
    ensures b.Consistent()
    ensures forall x :: b.Alive(x) <==> a.Alive(x) || x == s
    ensures forall x :: In(b.subscribes, x) <==> In(a.subscribes, x) || x == s
    ensures forall q :: b.Followers(q) == a.Followers(q) + if q == p then {s} else {}
  {
    hide Tidy, AddTo;
    Added(a.subscribes, src, s);
    assert !a.Alive(s);
    assert In(a.publishs, p);
    forall q ensures b.Followers(q) == a.Followers(q) + if q == p then {s} else {} {
    }
  }

  lemma AfterShutdown(a: Maps, b: Maps, tasks: seq<Task>, id: string)
    requires a.Consistent() && ShutsDown(a, b, tasks, id)
    ensures b.Consistent()
    ensures forall x :: b.Alive(x) <==> a.Alive(x) && x.id != id
    ensures forall x :: In(b.subscribes, x) <==> In(a.subscribes, x) && x.id != id
    ensures forall p :: b.Followers(p) == if p.id == id then {} else Rest(a.Followers(p), id)
  {
    hide In, Tidy, Without;
    Removed(a.publishs, id);
    Removed(a.subscribes, id);
    forall p ensures b.Followers(p) == if p.id == id then {} else Rest(a.Followers(p), id) {
    }
  }

  // ---------------------------------------------------------------------
  // Every step keeps the invariant.

  lemma JoinKeeps(a: State, b: State, k: string)
    requires Invariant(a) && JoinStep(a, b, k)
    ensures Invariant(b)
  {
    hide Tidy;
    forall s ensures b.maps.Alive(s) <==> a.maps.Alive(s) {
    }
    forall p ensures b.maps.Followers(p) == a.maps.Followers(p) && b.Observers(p) == a.Observers(p) {
    }
  }

  lemma LeaveKeeps(a: State, b: State, k: string, tasks: seq<Task>, doomed: set<Stream>)
    requires Invariant(a) && LeaveWith(a, b, k, tasks, doomed)
    ensures Invariant(b)
  {
    hide Tidy, Drain;
    forall s ensures b.maps.Alive(s) <==> a.maps.Alive(s) {
    }
    forall p ensures b.maps.Followers(p) == a.maps.Followers(p) && b.Observers(p) == a.Observers(p) {
    }
    forall p ensures Drain(b.Observers(p), b.posted, p) == b.maps.Followers(p) {
      DrainAppend(a.Observers(p), a.posted, tasks, p);
      DrainUnregisters(a.maps.Followers(p), tasks, p);
    }
    forall s | Stop(s) in tasks ensures s in a.created {
      assert a.maps.OwnedBy(k, s);
      assert a.maps.Alive(s);
    }
  }

  lemma PublishKeeps(a: State, b: State, k: string, s: Stream)
    requires Invariant(a) && PublishStep(a, b, k, s)
    ensures Invariant(b)
  {
    hide Tidy, Drain, In;
    AfterPublish(a.maps, b.maps, k, s);
    assert b.posted == a.posted;
    forall p ensures b.maps.Followers(p) == a.maps.Followers(p) && b.Observers(p) == a.Observers(p) {
    }
  }

  lemma SubscribeKeeps(a: State, b: State, src: string, dst: string, p: Stream, s: Stream)
    requires Invariant(a) && SubscribeStep(a, b, src, dst, p, s)
    ensures Invariant(b)
  {
    hide Tidy, In, Subscribes, Drain;
    assert b.posted == a.posted + [Register(p, s)] && b.observers == a.observers;
    AfterSubscribe(a.maps, b.maps, src, dst, p, s);
    forall q ensures Drain(b.Observers(q), b.posted, q) == b.maps.Followers(q) {
      DrainAppend(a.Observers(q), a.posted, [Register(p, s)], q);
      DrainOne(a.maps.Followers(q), Register(p, s), q);
    }
    forall x | In(b.maps.subscribes, x) ensures x in b.doomed || exists q :: x in b.maps.Followers(q) {
      if x == s { assert s in b.maps.Followers(p); }
      else if x !in a.doomed {
        var q :| x in a.maps.Followers(q);
        assert x in b.maps.Followers(q);
      }
    }
  }

  lemma ShutdownKeeps(a: State, s: Stream)
    requires Invariant(a) && s in a.created
    ensures Invariant(a.ShutdownOnce(s))
  {
    hide Tidy, Drain, In;
    var b := a.ShutdownOnce(s);
    forall p ensures b.Observers(p) == a.Observers(p) {
    }
  }

  lemma MainKeeps(a: State, b: State, tasks: seq<Task>, doomed: set<Stream>)
    requires Invariant(a) && MainWith(a, b, tasks, doomed)
    ensures Invariant(b)
    ensures forall s :: b.maps.Alive(s) <==> a.maps.Alive(s) && s != a.notified[a.handled]
  {
    hide Tidy, In, Drain, ShutsDown;
    var gone := a.notified[a.handled];
    AfterShutdown(a.maps, b.maps, tasks, gone.id);
    MainTasks(a.maps, b.maps, tasks, gone.id);
    assert a.maps.Alive(gone);
    forall s ensures b.maps.Alive(s) <==> a.maps.Alive(s) && s != gone {
    }
    forall p ensures Drain(b.Observers(p), b.posted, p) == b.maps.Followers(p) {
      assert b.Observers(p) == a.Observers(p);
      DrainAppend(a.Observers(p), a.posted, tasks, p);
      DrainUnregisters(a.maps.Followers(p), tasks, p);
    }
    forall s | In(b.maps.subscribes, s) ensures s in b.doomed || exists p :: s in b.maps.Followers(p) {
      if s !in a.doomed {
        var p :| s in a.maps.Followers(p);
        if p.id == gone.id {
          assert Stop(s) in tasks;
        } else {
          assert s in b.maps.Followers(p);
        }
      }
    }
  }

  lemma MainTasks(a: Maps, b: Maps, tasks: seq<Task>, id: string)
    requires a.Consistent() && ShutsDown(a, b, tasks, id)
    ensures forall t :: t in tasks ==> !t.Register?
    ensures forall s :: Stop(s) in tasks ==> a.Alive(s)
    ensures forall p, s :: s in a.Followers(p) && p.id == id ==> Stop(s) in tasks
    ensures forall p, s :: s in a.Followers(p) ==> (Unregister(p, s) in tasks <==> p.id == id || s.id == id)
  {
    hide Tidy, In, Without;
    forall t | t in tasks ensures !t.Register? {
    }
    forall s | Stop(s) in tasks ensures a.Alive(s) {
      var p: Stream :| p.id == id && s in a.Followers(p);
      assert In(a.subscribes, s);
    }
  }

  lemma WorkerKeeps(a: State, b: State, i: nat)
    requires Invariant(a) && WorkerStep(a, b, i)
    ensures Invariant(b)
    ensures b.maps == a.maps && b.created == a.created
  {
    hide Tidy, In, Drain, Maps.Consistent, Followed;
    var t, rest := a.posted[i], a.posted[..i] + a.posted[i + 1..];
    assert b.maps == a.maps && b.posted == rest && b.doomed == a.doomed;
    forall x | x in a.posted && x != t ensures x in rest {
      var k :| 0 <= k < |a.posted| && a.posted[k] == x;
      assert x == if k < i then rest[k] else rest[k - 1];
    }
    forall p ensures Drain(b.Observers(p), b.posted, p) == b.maps.Followers(p) {
      assert b.Observers(p) == Observed(a.Observers(p), t, p);
      DrainRan(a.Observers(p), a.posted, i, p);
    }
    assert Followed(b) by { assert Followed(a); FollowedSame(a, b); }
    assert Flags(b) by {
      if t.Stop? { ShutdownKeeps(a, t.stream); }
    }
  }

  lemma FollowedSame(a: State, b: State)
    requires Followed(a) && b.maps == a.maps && b.doomed == a.doomed
    ensures Followed(b)
  {
  }

  lemma NextKeeps(a: State, b: State)
    requires Invariant(a) && Next(a, b)
    ensures Invariant(b)
  {
    hide Invariant, LeaveWith, MainWith, JoinStep, PublishStep, SubscribeStep, WorkerStep;
    if k :| JoinStep(a, b, k) {
      JoinKeeps(a, b, k);
    } else if k :| LeaveStep(a, b, k) {
      var tasks, doomed :| LeaveWith(a, b, k, tasks, doomed);
      LeaveKeeps(a, b, k, tasks, doomed);
    } else if k, s :| PublishStep(a, b, k, s) {
      PublishKeeps(a, b, k, s);
    } else if src, dst, p, s :| SubscribeStep(a, b, src, dst, p, s) {
      SubscribeKeeps(a, b, src, dst, p, s);
    } else if s :| ErrorStep(a, b, s) {
      ShutdownKeeps(a, s);
    } else if MainStep(a, b) {
      var tasks, doomed :| MainWith(a, b, tasks, doomed);
      MainKeeps(a, b, tasks, doomed);
    } else {
      var i :| WorkerStep(a, b, i);
      WorkerKeeps(a, b, i);
    }
  }

  // ---------------------------------------------------------------------
  // Whole runs.

  ghost predicate Run(trace: seq<State>) {
    && trace != [] && trace[0] == INITIAL
    && forall i :: 0 < i < |trace| ==> Next(trace[i - 1], trace[i])
  }

  lemma {:induction false} RunKeeps(trace: seq<State>, i: nat)
    requires Run(trace) && i < |trace|
    ensures Invariant(trace[i])
    decreases i
  {
    hide Invariant, Next;
    if i == 0 {
      InitialInvariant();
    } else {
      RunKeeps(trace, i - 1);
      NextKeeps(trace[i - 1], trace[i]);
    }
  }

  /** Nothing is left of s: it is in no map and no observer list, it has stopped, and
      the room was told exactly once. */
  ghost predicate Gone(st: State, s: Stream) {
    && !st.maps.Alive(s)
    && s !in st.maps.publishSubscribes && st.Observers(s) == {}
    && (forall p :: s !in st.maps.Followers(p) && s !in st.Observers(p))
    && s in st.stoped
    && exists i :: 0 <= i < |st.notified| && st.notified[i] == s
                   && forall j :: 0 <= j < |st.notified| && j != i ==> st.notified[j] != s
  }

  /** Once every posted handler has run, the observer lists are those of the maps,
      every subscribe stream follows a published one, and whatever was told to stop
      or failed is gone. */
  lemma QuietIsClean(st: State)
    requires Invariant(st) && st.Quiet()
    ensures forall p :: st.Observers(p) == st.maps.Followers(p)
    ensures forall s :: In(st.maps.subscribes, s) ==> exists p :: In(st.maps.publishs, p) && s in st.maps.Followers(p)
    ensures forall s :: s in st.doomed || s in st.stoped ==> Gone(st, s)
  {
    hide Tidy, In, Maps.IdsApart;
    forall p ensures st.Observers(p) == st.maps.Followers(p) {
      assert Drain(st.Observers(p), [], p) == st.Observers(p);
    }
    forall s | s in st.doomed || s in st.stoped ensures Gone(st, s) {
      assert s in st.stoped;
      var i :| 0 <= i < |st.notified| && st.notified[i] == s;
      assert !st.maps.Alive(s);
      forall j | 0 <= j < |st.notified| && j != i ensures st.notified[j] != s {
        assert if i < j then st.notified[i] != st.notified[j] else st.notified[j] != st.notified[i];
      }
    }
    forall s | In(st.maps.subscribes, s)
      ensures exists p :: In(st.maps.publishs, p) && s in st.maps.Followers(p)
    {
      assert st.maps.Alive(s);
      var p :| s in st.maps.Followers(p);
      assert p in st.maps.publishSubscribes;
    }
  }

  /** From now on s follows p, or is told to stop, or has left the maps for good. */
  ghost predicate Tied(st: State, p: Stream, s: Stream) {
    s in st.created && (!st.maps.Alive(s) || s in st.doomed || s in st.maps.Followers(p))
  }

  lemma TiedStays(a: State, b: State, p: Stream, s: Stream)
    requires Invariant(a) && Next(a, b)
    ensures Tied(a, p, s) ==> Tied(b, p, s)
    ensures s in a.doomed ==> s in b.doomed
  {
    hide Invariant, Tidy, In, LeaveWith, MainWith, WorkerStep, Publishes, Subscribes;
    if k :| JoinStep(a, b, k) {
      assert b.maps.Alive(s) == a.maps.Alive(s) && b.maps.Followers(p) == a.maps.Followers(p);
    } else if k :| LeaveStep(a, b, k) {
      var tasks, doomed :| LeaveWith(a, b, k, tasks, doomed);
      LeaveTies(a, b, k, tasks, doomed, p, s);
    } else if k, x :| PublishStep(a, b, k, x) {
      assert a.maps.Consistent() by { MapsConsistent(a); }
      AfterPublish(a.maps, b.maps, k, x);
      assert b.maps.Followers(p) == a.maps.Followers(p);
    } else if src, dst, q, x :| SubscribeStep(a, b, src, dst, q, x) {
      assert a.maps.Consistent() by { MapsConsistent(a); }
      AfterSubscribe(a.maps, b.maps, src, dst, q, x);
    } else if x :| ErrorStep(a, b, x) {
      assert b.maps == a.maps && b.doomed == a.doomed && b.created == a.created;
    } else if MainStep(a, b) {
      var tasks, doomed :| MainWith(a, b, tasks, doomed);
      MainTies(a, b, tasks, doomed, p, s);
    } else {
      var i :| WorkerStep(a, b, i);
      WorkerTies(a, b, i);
    }
  }

  lemma MapsConsistent(st: State)
    requires Invariant(st)
    ensures st.maps.Consistent()
  {
  }

  lemma LeaveTies(a: State, b: State, k: string, tasks: seq<Task>, doomed: set<Stream>, p: Stream, s: Stream)
    requires LeaveWith(a, b, k, tasks, doomed)
    ensures Tied(a, p, s) ==> Tied(b, p, s)
    ensures s in a.doomed ==> s in b.doomed
    ensures a.maps.OwnedBy(k, s) ==> s in b.doomed
  {
    assert b.maps.Alive(s) == a.maps.Alive(s) && b.maps.Followers(p) == a.maps.Followers(p);
    if a.maps.OwnedBy(k, s) {
      assert Stop(s) in tasks;
    }
  }

  lemma WorkerTies(a: State, b: State, i: nat)
    requires WorkerStep(a, b, i)
    ensures b.maps == a.maps && b.doomed == a.doomed && b.created == a.created
  {
  }

  lemma MainTies(a: State, b: State, tasks: seq<Task>, doomed: set<Stream>, p: Stream, s: Stream)
    requires Invariant(a) && MainWith(a, b, tasks, doomed)
    ensures Tied(a, p, s) ==> Tied(b, p, s)
    ensures s in a.doomed ==> s in b.doomed
  {
    hide Tidy, In, ShutsDown, Flags, WillStop, Followed, InStep;
    var id := a.notified[a.handled].id;
    AfterShutdown(a.maps, b.maps, tasks, id);
    MainTasks(a.maps, b.maps, tasks, id);
  }

  lemma {:induction false} TiedLater(trace: seq<State>, i: nat, j: nat, p: Stream, s: Stream)
    requires Run(trace) && i <= j < |trace|
    ensures Tied(trace[i], p, s) ==> Tied(trace[j], p, s)
    ensures s in trace[i].doomed ==> s in trace[j].doomed
    decreases j
  {
    hide Tied, Next, Invariant;
    if i < j {
      TiedLater(trace, i, j - 1, p, s);
      RunKeeps(trace, j - 1);
      TiedStays(trace[j - 1], trace[j], p, s);
    }
  }

  /** Clean-up after a participant has left. In every run, once all posted handlers
      have run, nothing is left of the streams the participant had, nor of any
      subscription to them, also one made after the participant left and before its
      streams went away. */
  lemma LeaveCleansUp(trace: seq<State>, i: nat, j: nat, k: string)
    requires Run(trace) && i < j < |trace|
    requires LeaveStep(trace[i], trace[i + 1], k) && trace[j].Quiet()
    ensures forall s :: trace[i].maps.OwnedBy(k, s) ==> Gone(trace[j], s)
    ensures forall m, p, s :: i <= m <= j && trace[i].maps.OwnedBy(k, p) && s in trace[m].maps.Followers(p) ==>
              Gone(trace[j], s)
  {
    hide Tied, Next, Gone, Invariant, LeaveWith;
    var a, b, last := trace[i], trace[i + 1], trace[j];
    var tasks, doomed :| LeaveWith(a, b, k, tasks, doomed);
    RunKeeps(trace, j);
    QuietIsClean(last);
    forall s | a.maps.OwnedBy(k, s) ensures Gone(last, s) {
      LeaveTies(a, b, k, tasks, doomed, s, s);
      TiedLater(trace, i + 1, j, s, s);
    }
    forall m, p, s | i <= m <= j && a.maps.OwnedBy(k, p) && s in trace[m].maps.Followers(p)
      ensures Gone(last, s)
    {
      RunKeeps(trace, m);
      FollowerIsTied(trace[m], p, s);
      TiedLater(trace, m, j, p, s);
      TiedToGone(last, p, s);
    }
  }

  lemma FollowerIsTied(st: State, p: Stream, s: Stream)
    requires Invariant(st) && s in st.maps.Followers(p)
    ensures Tied(st, p, s)
  {
    hide Tidy, In, Followed, InStep;
    assert st.maps.Alive(s);
  }

  lemma TiedToGone(st: State, p: Stream, s: Stream)
    requires Invariant(st) && Gone(st, p) && Tied(st, p, s)
    ensures s in st.doomed || s in st.stoped
  {
    hide Tidy, In, Followed, InStep;
  }

  // ---------------------------------------------------------------------
  // Handlers alone always come to rest.

  ghost function StillMapped(st: State): set<Stream> {
    set s | s in st.created && st.maps.Alive(s)
  }

  /** Each handler removes a stream from the maps, or stops one, or just runs. */
  ghost predicate Smaller(b: State, a: State) {
    || |StillMapped(b)| < |StillMapped(a)|
    || (|StillMapped(b)| == |StillMapped(a)|
        && (|b.created - b.stoped| < |a.created - a.stoped|
            || (|b.created - b.stoped| == |a.created - a.stoped| && |b.posted| < |a.posted|)))
  }

  lemma HandlerStepsDescend(a: State, b: State)
    requires Invariant(a) && HandlerStep(a, b)
    ensures Invariant(b) && Smaller(b, a)
  {
    hide Invariant, MainWith, WorkerStep, Smaller;
    if MainStep(a, b) {
      var tasks, doomed :| MainWith(a, b, tasks, doomed);
      MainDescends(a, b, tasks, doomed);
    } else {
      var i :| WorkerStep(a, b, i);
      WorkerDescends(a, b, i);
    }
  }

  lemma MainDescends(a: State, b: State, tasks: seq<Task>, doomed: set<Stream>)
    requires Invariant(a) && MainWith(a, b, tasks, doomed)
    ensures Invariant(b) && Smaller(b, a)
  {
    hide MainWith, Maps.Consistent, Followed, InStep, WillStop, Maps.Alive;
    MainKeeps(a, b, tasks, doomed);
    MainPlain(a, b, tasks, doomed);
    var gone := a.notified[a.handled];
    assert gone in StillMapped(a);
    assert StillMapped(b) == StillMapped(a) - {gone};
  }

  lemma WorkerDescends(a: State, b: State, i: nat)
    requires Invariant(a) && WorkerStep(a, b, i)
    ensures Invariant(b) && Smaller(b, a)
  {
    hide WorkerStep, Maps.Consistent, Followed, InStep, Flags, Maps.Alive;
    WorkerKeeps(a, b, i);
    assert StillMapped(b) == StillMapped(a);
    WorkerPlain(a, b, i);
  }

  lemma MainPlain(a: State, b: State, tasks: seq<Task>, doomed: set<Stream>)
    requires MainWith(a, b, tasks, doomed)
    ensures b.created == a.created && a.handled < |a.notified|
  {
  }

  lemma WorkerPlain(a: State, b: State, i: nat)
    requires WorkerStep(a, b, i) && WillStop(a)
    ensures b.created == a.created && |b.posted| < |a.posted|
    ensures b.stoped == a.stoped || |b.created - b.stoped| < |a.created - a.stoped|
  {
    var t := a.posted[i];
    if t.Stop? && t.stream !in a.stoped {
      assert b.created - b.stoped == (a.created - a.stoped) - {t.stream};
      assert t == Stop(t.stream) && t in a.posted;
    }
  }

  lemma {:induction false} Listing(tasks: set<Task>) returns (order: seq<Task>)
    ensures forall t :: t in order <==> t in tasks
  {
    if tasks == {} {
      order := [];
    } else {
      var t :| t in tasks;
      var rest := Listing(tasks - {t});
      order := [t] + rest;
    }
  }

  /** Unless everything has run, some thread has a handler to run. */
  lemma SomeHandlerRuns(a: State) returns (b: State)
    requires a.handled <= |a.notified| && !a.Quiet()
    ensures HandlerStep(a, b)
  {
    if a.posted != [] {
      b := Ran(a.(posted := a.posted[..0] + a.posted[0 + 1..]), a.posted[0]);
      assert WorkerStep(a, b, 0);
    } else {
      var id, m := a.notified[a.handled].id, a.maps;
      var pairs := set p, s | p in m.publishSubscribes && s in m.publishSubscribes[p]
                              && (p.id == id || s.id == id) :: (p, s);
      var tasks := (set x | x in pairs && x.0.id == id :: Stop(x.1)) + (set x | x in pairs :: Unregister(x.0, x.1));
      var order := Listing(tasks);
      var doomed := set x | x in pairs && x.0.id == id :: x.1;
      var maps := Maps(m.participants, Without(m.publishs, id), Without(m.subscribes, id),
                       map p | p in m.publishSubscribes && p.id != id :: Rest(m.publishSubscribes[p], id));
      forall t
        ensures t in order <==>
                match t
                case Stop(s) => exists p: Stream :: p.id == id && s in m.Followers(p)
                case Register(_, _) => false
                case Unregister(p, s) => s in m.Followers(p) && (p.id == id || s.id == id)
      {
        match t
        case Stop(s) =>
          if p: Stream :| p.id == id && s in m.Followers(p) {
            assert (p, s) in pairs;
          }
        case Register(_, _) =>
        case Unregister(p, s) =>
          assert (p, s) in pairs <==> s in m.Followers(p) && (p.id == id || s.id == id);
      }
      b := AfterMethod(a, maps, order, {}, doomed).(handled := a.handled + 1);
      assert Stopped(order, doomed);
      assert MainWith(a, b, order, doomed);
    }
  }

  /** From every reachable state the handlers alone lead to a quiet one. */
  lemma ComesToRest(a: State) returns (trace: seq<State>)
    requires Invariant(a)
    ensures trace != [] && trace[0] == a && trace[|trace| - 1].Quiet() && Invariant(trace[|trace| - 1])
    ensures forall i :: 0 < i < |trace| ==> HandlerStep(trace[i - 1], trace[i])
    decreases |StillMapped(a)|, |a.created - a.stoped|, |a.posted|
  {
    hide HandlerStep, StillMapped, Maps.Consistent, WillStop, Followed, InStep;
    if a.Quiet() {
      trace := [a];
    } else {
      var b := SomeHandlerRuns(a);
      HandlerStepsDescend(a, b);
      var rest := ComesToRest(b);
      trace := [a] + rest;
      forall i | 0 < i < |trace| ensures HandlerStep(trace[i - 1], trace[i]) {
        if i > 1 { assert HandlerStep(rest[i - 2], rest[i - 1]); }
      }
    }
  }
}
