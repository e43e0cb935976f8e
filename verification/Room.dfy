/**
 The room's methods on its three maps (src/signaling/room.cpp). Each is proved to
 be a step of the protocol in module RoomProtocol.
 */
module RoomMethods {
  import opened Wrappers
  import opened RoomProtocol

  datatype JoinResult = Ok | ParticipantAlreadyJoined

  /** m is m0 with the stream of this id taken out of the sets already seen, and gone
      is that stream, if it was seen. */
  ghost predicate Half(m0: map<string, set<Stream>>, m: map<string, set<Stream>>, seen: set<string>, id: string,
                       gone: Option<Stream>) {
    && (forall k ::
          && (k in m <==> k in m0 && (k in seen ==> Rest(m0[k], id) != {}))
          && (k in m && k in seen ==> m[k] == Rest(m0[k], id))
          && (k in m && k !in seen ==> m[k] == m0[k]))
    && match gone
       case None => forall k, s :: k in seen && Owns(m0, k, s) ==> s.id != id
       case Some(s) => s.id == id && exists k :: k in seen && Owns(m0, k, s)
  }

  lemma HalfBegins(m0: map<string, set<Stream>>, id: string)
    ensures Half(m0, m0, m0.Keys - m0.Keys, id, None)
  {
  }

  lemma HalfHas(m0: map<string, set<Stream>>, m: map<string, set<Stream>>, seen: set<string>, id: string,
                gone: Option<Stream>, k: string)
    requires Half(m0, m, seen, id, gone) && k in m0 && k !in seen
    ensures k in m && m[k] == m0[k]
  {
  }

  lemma HalfDone(m0: map<string, set<Stream>>, m: map<string, set<Stream>>, id: string, gone: Option<Stream>)
    requires Half(m0, m, m0.Keys - {}, id, gone)
    ensures m == Without(m0, id)
    ensures gone == None ==> forall s :: In(m0, s) ==> s.id != id
    ensures gone.Some? ==> gone.value.id == id && In(m0, gone.value)
  {
  }

  /** A stream of this id, if k has it, is the only one anywhere. */
  ghost predicate OnlyOne(m: map<string, set<Stream>>, k: string) {
    forall s, l, t :: Owns(m, k, s) && Owns(m, l, t) && s.id == t.id ==> s == t && k == l
  }

  lemma OneWithId(a: Maps, k: string)
    requires a.Consistent()
    ensures OnlyOne(a.publishs, k) && OnlyOne(a.subscribes, k)
  {
    forall s, l, t | Owns(a.publishs, k, s) && Owns(a.publishs, l, t) && s.id == t.id ensures s == t && k == l {
      assert a.Alive(s) && a.Alive(t);
    }
    forall s, l, t | Owns(a.subscribes, k, s) && Owns(a.subscribes, l, t) && s.id == t.id ensures s == t && k == l {
      assert a.Alive(s) && a.Alive(t);
    }
  }

  /** One visit: the stream with this id, if there, leaves the set of k; an empty set
      leaves the map. */
  method TakeOut(m: map<string, set<Stream>>, k: string, id: string, ghost m0: map<string, set<Stream>>,
                 ghost seen: set<string>, ghost gone: Option<Stream>)
    returns (r: map<string, set<Stream>>, found: Option<Stream>)
    requires k in m && k !in seen && Half(m0, m, seen, id, gone) && OnlyOne(m0, k)
    ensures found.Some? ==> gone == None
    ensures Half(m0, r, seen + {k}, id, if found.Some? then found else gone)
  {
    var streams := m[k];
    found := None;
    if s :| s in streams && s.id == id {
      found := Some(s);
      streams := streams - {s};
      assert Owns(m0, k, s);
    }
    assert streams == Rest(m0[k], id) by {
      assert forall s :: s in m0[k] <==> Owns(m0, k, s);
    }
    r := if streams == {} then m - {k} else m[k := streams];
  }

  /** No task is posted twice. */
  ghost predicate NoneTwice(tasks: seq<Task>) {
    forall i, j :: 0 <= i < j < |tasks| ==> tasks[i] != tasks[j]
  }

  lemma NoneTwiceTogether(tasks: seq<Task>, more: seq<Task>)
    requires NoneTwice(tasks) && NoneTwice(more) && forall t :: t in tasks ==> t !in more
    ensures NoneTwice(tasks + more)
  {
    forall i, j | 0 <= i < j < |tasks + more| ensures (tasks + more)[i] != (tasks + more)[j] {
      if i < |tasks| <= j {
        assert tasks[i] in tasks && more[j - |tasks|] in more;
      }
    }
  }

  lemma NoTask()
    ensures NoneTwice([])
  {
  }

  lemma OneTask(t: Task)
    ensures NoneTwice([t]) && forall x :: x in [t] <==> x == t
  {
  }

  lemma TwoTasks(p: Stream, s: Stream)
    ensures NoneTwice([Unregister(p, s), Stop(s)])
    ensures forall x :: x in [Unregister(p, s), Stop(s)] <==> x == Unregister(p, s) || x == Stop(s)
  {
  }

  /** What the two loops post does not overlap. */
  lemma SweepsDiffer(a: Maps, id: string, tasks: seq<Task>, more: seq<Task>)
    requires AllPublisherTasks(a, id, tasks) && SubscriberTasks(KeysLeft(a.publishSubscribes, id), id, more)
    ensures forall t :: t in tasks ==> t !in more
  {
  }

  /** A stream is not both a publish and a subscribe stream. */
  lemma KindsDiffer(a: Maps, k: string)
    requires a.Consistent()
    ensures k in a.publishs && k in a.subscribes ==> a.publishs[k] !! a.subscribes[k]
  {
    if k in a.publishs && k in a.subscribes {
      forall s | s in a.publishs[k] && s in a.subscribes[k] ensures false {
        assert Owns(a.publishs, k, s) && Owns(a.subscribes, k, s);
        assert In(a.publishs, s) && In(a.subscribes, s);
      }
    }
  }

  /** What is posted when this publish stream, if any, goes away. */
  ghost predicate PublisherTasks(ps: map<Stream, set<Stream>>, gone: Option<Stream>, tasks: seq<Task>) {
    match gone
    case None => tasks == []
    case Some(p) =>
      forall t :: t in tasks <==>
        match t
        case Stop(s) => p in ps && s in ps[p]
        case Register(_, _) => false
        case Unregister(q, s) => q == p && p in ps && s in ps[p]
  }

  ghost function LessOne(ps: map<Stream, set<Stream>>, gone: Option<Stream>): map<Stream, set<Stream>> {
    match gone
    case None => ps
    case Some(p) => ps - {p}
  }

  lemma EmptySoFar(ps: map<Stream, set<Stream>>, tasks: seq<Task>)
    requires PublisherTasks(ps, None, tasks)
    ensures tasks == [] && LessOne(ps, None) == ps
  {
  }

  lemma NobodyGone(ps: map<Stream, set<Stream>>)
    ensures PublisherTasks(ps, None, []) && LessOne(ps, None) == ps
  {
  }

  /** What is posted when the subscribe stream with this id goes away. */
  ghost predicate SubscriberTasks(ps: map<Stream, set<Stream>>, id: string, tasks: seq<Task>) {
    forall t :: t in tasks <==>
      t.Unregister? && t.publisher in ps && t.observer in ps[t.publisher] && t.observer.id == id
  }

  ghost function FollowersLeft(ps: map<Stream, set<Stream>>, id: string): map<Stream, set<Stream>> {
    map p | p in ps :: Rest(ps[p], id)
  }

  /** One subscribe stream has been erased from all sets but those still left to visit. */
  ghost predicate Sweeping(ps0: map<Stream, set<Stream>>, ps: map<Stream, set<Stream>>, left: set<Stream>, id: string,
                           tasks: seq<Task>) {
    && left <= ps0.Keys == ps.Keys
    && (forall p :: p in ps ==> ps[p] == if p in left then ps0[p] else Rest(ps0[p], id))
    && (forall t :: t in tasks <==>
          && t.Unregister? && t.publisher in ps0.Keys - left
          && t.observer in ps0[t.publisher] && t.observer.id == id)
  }

  lemma SweepStep(ps0: map<Stream, set<Stream>>, ps: map<Stream, set<Stream>>, left: set<Stream>, id: string,
                  tasks: seq<Task>, p: Stream, more: seq<Task>)
    requires Sweeping(ps0, ps, left, id, tasks) && p in left
    requires forall t :: t in more <==>
               t.Unregister? && t.publisher == p && t.observer in ps[p] && t.observer.id == id
    ensures Sweeping(ps0, ps[p := Rest(ps[p], id)], left - {p}, id, tasks + more)
    ensures forall t :: t in tasks ==> t !in more
  {
    hide Rest;
  }

  lemma SweepEnds(ps0: map<Stream, set<Stream>>, ps: map<Stream, set<Stream>>, id: string, tasks: seq<Task>)
    ensures Sweeping(ps0, ps0, ps0.Keys, id, [])
    ensures Sweeping(ps0, ps, {}, id, tasks) ==> ps == FollowersLeft(ps0, id) && SubscriberTasks(ps0, id, tasks)
  {
    hide Rest;
  }

  ghost predicate AllPublisherTasks(a: Maps, id: string, tasks: seq<Task>) {
    forall t :: t in tasks <==>
      match t
      case Stop(s) => exists p: Stream :: p.id == id && s in a.Followers(p)
      case Register(_, _) => false
      case Unregister(p, s) => p.id == id && s in a.Followers(p)
  }

  ghost function KeysLeft(ps: map<Stream, set<Stream>>, id: string): map<Stream, set<Stream>> {
    map p | p in ps && p.id != id :: ps[p]
  }

  lemma PublishersSwept(a: Maps, id: string, gone: Option<Stream>, tasks: seq<Task>)
    requires a.Consistent()
    requires PublisherTasks(a.publishSubscribes, gone, tasks)
    requires gone == None ==> forall s :: In(a.publishs, s) ==> s.id != id
    requires gone.Some? ==> gone.value.id == id && In(a.publishs, gone.value)
    ensures AllPublisherTasks(a, id, tasks)
    ensures KeysLeft(a.publishSubscribes, id) == LessOne(a.publishSubscribes, gone)
  {
    hide In, Tidy;
    forall p | p in a.publishSubscribes && p.id == id ensures gone == Some(p) {
      assert In(a.publishs, p) && a.Alive(p);
      if gone.Some? { assert a.Alive(gone.value); }
    }
  }

  lemma SubscribersSwept(a: Maps, ps: map<Stream, set<Stream>>, id: string, gone: Option<Stream>, tasks: seq<Task>)
    requires a.Consistent() && forall p, s :: p in ps && s in ps[p] ==> s in a.Followers(p)
    requires gone == None ==> tasks == [] && forall s :: In(a.subscribes, s) ==> s.id != id
    requires gone.Some? ==> SubscriberTasks(ps, id, tasks)
    ensures SubscriberTasks(ps, id, tasks)
    ensures gone == None ==> ps == FollowersLeft(ps, id)
  {
    hide In, Tidy;
    if gone == None {
      forall p, s | p in ps && s in ps[p] ensures s.id != id {
        assert s in a.Followers(p);
        assert In(a.subscribes, s);
      }
      forall p | p in ps ensures Rest(ps[p], id) == ps[p] {
      }
    }
  }

  /** The two loops together are the shutdown step. */
  lemma BothSwept(a: Maps, m: Maps, b: Maps, tasks: seq<Task>, more: seq<Task>, id: string)
    requires m == a.(publishs := Without(a.publishs, id), publishSubscribes := KeysLeft(a.publishSubscribes, id))
    requires b == m.(subscribes := Without(a.subscribes, id),
                     publishSubscribes := FollowersLeft(m.publishSubscribes, id))
    requires AllPublisherTasks(a, id, tasks) && SubscriberTasks(m.publishSubscribes, id, more)
    ensures ShutsDown(a, b, tasks + more, id)
  {
    hide Without;
    forall p, s ensures p in m.publishSubscribes && s in m.publishSubscribes[p] <==> p.id != id && s in a.Followers(p) {
    }
  }

  lemma LeftFollow(a: Maps, id: string)
    ensures var left := KeysLeft(a.publishSubscribes, id);
            forall p, s :: p in left && s in left[p] ==> s in a.Followers(p)
  {
  }

  /** Who is in the room does not matter to the maps of streams. */
  lemma StreamsAgree(a: Maps, b: Maps)
    requires a.Consistent() && b == a.(participants := b.participants)
    ensures b.Consistent()
  {
    assert forall s :: b.Alive(s) <==> a.Alive(s);
    assert forall p :: b.Followers(p) == a.Followers(p);
  }

  /** The random source gives an id that is not in use sooner or later. */
  ghost predicate SomeFresh(a: Maps, draws: seq<string>) {
    exists i :: 0 <= i < |draws| && !a.IdExists(draws[i])
  }

  /** The first of the ids drawn that is not in use. */
  ghost predicate FirstFresh(a: Maps, draws: seq<string>, id: string) {
    exists n :: 0 <= n < |draws| && id == draws[n] && !a.IdExists(id) && forall j :: 0 <= j < n ==> a.IdExists(draws[j])
  }

  class Room {
    var participantIdSet: set<string>
    var participantPublishs: map<string, set<Stream>>
    var participantSubscribes: map<string, set<Stream>>
    var publishSubscribes: map<Stream, set<Stream>>
    /** What was posted to worker threads, oldest first. */
    var posted: seq<Task>

    ghost function View(): Maps
      reads this
    {
      Maps(participantIdSet, participantPublishs, participantSubscribes, publishSubscribes)
    }

    constructor ()
      ensures View() == INITIAL.maps && posted == []
    {
      participantIdSet, participantPublishs, participantSubscribes, publishSubscribes := {}, map[], map[], map[];
      posted := [];
    }

    method Join(participantId: string) returns (r: JoinResult)
      modifies this
      ensures View() == old(View()).(participants := old(participantIdSet) + {participantId})
      ensures r == ParticipantAlreadyJoined <==> participantId in old(participantIdSet)
      ensures posted == old(posted)
      ensures old(View().Consistent()) ==> View().Consistent()
    {
      hide Maps.Consistent;
      if participantId in participantIdSet {
        return ParticipantAlreadyJoined;
      }
      participantIdSet := participantIdSet + {participantId};
      if old(View().Consistent()) {
        StreamsAgree(old(View()), View());
      }
      return Ok;
    }

    method StopAll(streams: set<Stream>) returns (ghost tasks: seq<Task>)
      modifies this`posted
      ensures posted == old(posted) + tasks
      ensures NoneTwice(tasks) && forall t :: t in tasks <==> t.Stop? && t.stream in streams
    {
      hide NoneTwice;
      var left := streams;
      tasks := [];
      NoTask();
      while left != {}
        invariant left <= streams && posted == old(posted) + tasks
        invariant NoneTwice(tasks) && forall t :: t in tasks <==> t.Stop? && t.stream in streams - left
        decreases |left|
      {
        var s :| s in left;
        OneTask(Stop(s));
        NoneTwiceTogether(tasks, [Stop(s)]);
        left := left - {s};
        posted := posted + [Stop(s)];
        tasks := tasks + [Stop(s)];
      }
    }

    method Leave(participantId: string) returns (ghost tasks: seq<Task>)
      modifies this
      ensures posted == old(posted) + tasks
      ensures Leaves(old(View()), View(), tasks, participantId)
      ensures old(View().Consistent()) ==> View().Consistent() && NoneTwice(tasks)
    {
      hide Maps.Consistent, NoneTwice;
      tasks := [];
      NoTask();
      if participantId in participantPublishs {
        tasks := StopAll(participantPublishs[participantId]);
      }
      if participantId in participantSubscribes {
        ghost var more := StopAll(participantSubscribes[participantId]);
        if old(View().Consistent()) {
          KindsDiffer(old(View()), participantId);
          NoneTwiceTogether(tasks, more);
        }
        tasks := tasks + more;
      }
      participantIdSet := participantIdSet - {participantId};
      if old(View().Consistent()) {
        StreamsAgree(old(View()), View());
      }
    }

    /** StreamIdExist over one map. */
    method HasId(m: map<string, set<Stream>>, id: string) returns (r: bool)
      ensures r <==> exists s :: In(m, s) && s.id == id
    {
      var keys := m.Keys;
      while keys != {}
        invariant keys <= m.Keys
        invariant forall k, s :: k in m.Keys - keys && s in m[k] ==> s.id != id
        decreases |keys|
      {
        var k :| k in keys;
        keys := keys - {k};
        if s :| s in m[k] && s.id == id {
          assert Owns(m, k, s);
          return true;
        }
      }
      return false;
    }

    method StreamIdExist(id: string) returns (r: bool)
      ensures r <==> View().IdExists(id)
    {
      hide In;
      r := HasId(participantPublishs, id);
      if r {
        ghost var s :| In(participantPublishs, s) && s.id == id;
        assert View().Alive(s);
        return;
      }
      r := HasId(participantSubscribes, id);
      if r {
        ghost var s :| In(participantSubscribes, s) && s.id == id;
        assert View().Alive(s);
      }
    }

    /** Draws random ids until one is not in use. */
    method DrawId(draws: seq<string>) returns (id: string)
      requires SomeFresh(View(), draws)
      ensures FirstFresh(View(), draws, id)
    {
      hide Maps.IdExists;
      var i := 0;
      while true
        invariant 0 <= i < |draws| && forall j :: 0 <= j < i ==> View().IdExists(draws[j])
        decreases |draws| - i
      {
        id := draws[i];
        var taken := StreamIdExist(id);
        if !taken {
          break;
        }
        i := i + 1;
      }
    }

    /** `draws` is what the random source gives, one string after the other; the new
        stream is the object created, on the worker chosen for it, and `accepted` is
        what its set-up reports. */
    method ParticipantPublish(participantId: string, draws: seq<string>, identity: nat, worker: nat, accepted: bool)
      returns (r: Option<Stream>)
      requires SomeFresh(View(), draws)
      modifies this`participantPublishs
      ensures r.Some? <==> participantId in participantIdSet && accepted
      ensures r.Some? ==>
                && r.value == Stream(identity, r.value.id, worker) && FirstFresh(old(View()), draws, r.value.id)
                && Publishes(old(View()), View(), [], participantId, r.value)
      ensures r.None? ==> View() == old(View())
      ensures old(View().Consistent()) ==> View().Consistent()
    {
      hide Maps.Consistent, Maps.IdExists;
      if participantId !in participantIdSet {
        return None;
      }
      var id := DrawId(draws);
      if !accepted {
        return None;
      }
      var stream := Stream(identity, id, worker);
      participantPublishs := AddTo(participantPublishs, participantId, stream);
      if old(View().Consistent()) {
        AfterPublish(old(View()), View(), participantId, stream);
      }
      return Some(stream);
    }

    method ParticipantSubscribe(src: string, dst: string, streamId: string, draws: seq<string>, identity: nat,
                                worker: nat, accepted: bool)
      returns (r: Option<Stream>, ghost publisher: Stream)
      requires SomeFresh(View(), draws)
      modifies this
      ensures r.Some? <==>
              && src in participantIdSet && dst in participantIdSet && accepted
              && exists p :: Owns(old(participantPublishs), dst, p) && p.id == streamId
      ensures r.Some? ==>
                && r.value == Stream(identity, r.value.id, worker) && FirstFresh(old(View()), draws, r.value.id)
                && publisher.id == streamId
                && Subscribes(old(View()), View(), [Register(publisher, r.value)], src, dst, publisher, r.value)
                && posted == old(posted) + [Register(publisher, r.value)]
      ensures r.None? ==> View() == old(View()) && posted == old(posted)
      ensures old(View().Consistent()) ==> View().Consistent()
    {
      hide Maps.Consistent, Maps.IdExists;
      publisher := Stream(identity, streamId, worker);
      if src !in participantIdSet || dst !in participantIdSet || dst !in participantPublishs {
        return None, publisher;
      }
      if p :| p in participantPublishs[dst] && p.id == streamId {
        publisher := p;
        assert Owns(old(participantPublishs), dst, p);
        var id := DrawId(draws);
        if !accepted {
          return None, publisher;
        }
        var stream := Stream(identity, id, worker);
        posted := posted + [Register(p, stream)];
        var followers := if p in publishSubscribes then publishSubscribes[p] else {};
        publishSubscribes := publishSubscribes[p := followers + {stream}];
        participantSubscribes := AddTo(participantSubscribes, src, stream);
        if old(View().Consistent()) {
          AfterSubscribe(old(View()), View(), src, dst, p, stream);
        }
        return Some(stream), publisher;
      }
      return None, publisher;
    }

    /** The followers of a publish stream that goes away are unregistered and stopped. */
    method DropFollowers(p: Stream) returns (ghost tasks: seq<Task>)
      modifies this`posted, this`publishSubscribes
      ensures posted == old(posted) + tasks && publishSubscribes == LessOne(old(publishSubscribes), Some(p))
      ensures PublisherTasks(old(publishSubscribes), Some(p), tasks) && NoneTwice(tasks)
    {
      hide NoneTwice;
      NoTask();
      tasks := [];
      if p !in publishSubscribes {
        return;
      }
      var followers := publishSubscribes[p];
      var left := followers;
      while left != {}
        invariant left <= followers && posted == old(posted) + tasks
        invariant publishSubscribes == old(publishSubscribes) && NoneTwice(tasks)
        invariant forall t :: t in tasks <==>
                    match t
                    case Stop(s) => s in followers - left
                    case Register(_, _) => false
                    case Unregister(q, s) => q == p && s in followers - left
        decreases |left|
      {
        var s :| s in left;
        left := left - {s};
        TwoTasks(p, s);
        NoneTwiceTogether(tasks, [Unregister(p, s), Stop(s)]);
        posted := posted + [Unregister(p, s), Stop(s)];
        tasks := tasks + [Unregister(p, s), Stop(s)];
      }
      publishSubscribes := publishSubscribes - {p};
    }

    /** The first loop of the shutdown handler. */
    method SweepPublishers(id: string) returns (ghost tasks: seq<Task>)
      requires View().Consistent()
      modifies this`posted, this`publishSubscribes, this`participantPublishs
      ensures posted == old(posted) + tasks
      ensures participantPublishs == Without(old(participantPublishs), id)
      ensures publishSubscribes == KeysLeft(old(publishSubscribes), id)
      ensures AllPublisherTasks(old(View()), id, tasks) && NoneTwice(tasks)
    {
      hide NoneTwice, Half, Without, PublisherTasks, AllPublisherTasks, KeysLeft, LessOne, OnlyOne, In, Maps.Consistent;
      ghost var a := View();
      var keys := participantPublishs.Keys;
      ghost var gone: Option<Stream> := None;
      tasks := [];
      HalfBegins(a.publishs, id);
      NobodyGone(a.publishSubscribes);
      NoTask();
      while keys != {}
        invariant keys <= a.publishs.Keys && posted == old(posted) + tasks
        invariant Half(a.publishs, participantPublishs, a.publishs.Keys - keys, id, gone)
        invariant publishSubscribes == LessOne(a.publishSubscribes, gone)
        invariant PublisherTasks(a.publishSubscribes, gone, tasks) && NoneTwice(tasks)
        decreases |keys|
      {
        var k :| k in keys;
        ghost var seen := a.publishs.Keys - keys;
        keys := keys - {k};
        assert seen + {k} == a.publishs.Keys - keys;
        HalfHas(a.publishs, participantPublishs, seen, id, gone, k);
        OneWithId(a, k);
        var found;
        participantPublishs, found := TakeOut(participantPublishs, k, id, a.publishs, seen, gone);
        if found.Some? {
          EmptySoFar(a.publishSubscribes, tasks);
          tasks := DropFollowers(found.value);
          gone := found;
        }
      }
      HalfDone(a.publishs, participantPublishs, id, gone);
      PublishersSwept(a, id, gone, tasks);
    }

    /** Unregisters and erases one subscribe stream wherever it follows. */
    method SweepFollowers(id: string) returns (ghost tasks: seq<Task>)
      modifies this`posted, this`publishSubscribes
      ensures posted == old(posted) + tasks
      ensures publishSubscribes == FollowersLeft(old(publishSubscribes), id)
      ensures SubscriberTasks(old(publishSubscribes), id, tasks) && NoneTwice(tasks)
    {
      hide NoneTwice, Sweeping, FollowersLeft, SubscriberTasks, Rest;
      ghost var before := publishSubscribes;
      var keys := publishSubscribes.Keys;
      tasks := [];
      SweepEnds(before, before, id, tasks);
      NoTask();
      while keys != {}
        invariant keys <= publishSubscribes.Keys == before.Keys && posted == old(posted) + tasks
        invariant Sweeping(before, publishSubscribes, keys, id, tasks) && NoneTwice(tasks)
        decreases |keys|
      {
        var p :| p in keys;
        ghost var now := publishSubscribes;
        ghost var more := EraseFollower(p, id);
        SweepStep(before, now, keys, id, tasks, p, more);
        NoneTwiceTogether(tasks, more);
        keys := keys - {p};
        tasks := tasks + more;
      }
      SweepEnds(before, publishSubscribes, id, tasks);
    }

    method EraseFollower(p: Stream, id: string) returns (ghost tasks: seq<Task>)
      requires p in publishSubscribes
      modifies this`posted, this`publishSubscribes
      ensures posted == old(posted) + tasks && NoneTwice(tasks)
      ensures publishSubscribes == old(publishSubscribes)[p := Rest(old(publishSubscribes)[p], id)]
      ensures forall t :: t in tasks <==>
                t.Unregister? && t.publisher == p && t.observer in old(publishSubscribes)[p] && t.observer.id == id
    {
      hide NoneTwice;
      var followers := publishSubscribes[p];
      ghost var all := followers;
      var left := followers;
      tasks := [];
      NoTask();
      while left != {}
        invariant left <= all && posted == old(posted) + tasks && publishSubscribes == old(publishSubscribes)
        invariant followers == left + Rest(all, id) && NoneTwice(tasks)
        invariant forall t :: t in tasks <==>
                    t.Unregister? && t.publisher == p && t.observer in all - left && t.observer.id == id
        decreases |left|
      {
        var s :| s in left;
        left := left - {s};
        if s.id == id {
          OneTask(Unregister(p, s));
          NoneTwiceTogether(tasks, [Unregister(p, s)]);
          posted := posted + [Unregister(p, s)];
          tasks := tasks + [Unregister(p, s)];
          followers := followers - {s};
        }
      }
      publishSubscribes := publishSubscribes[p := followers];
    }

    /** The second loop of the shutdown handler. */
    method SweepSubscribers(id: string, ghost a: Maps) returns (ghost tasks: seq<Task>)
      requires a.Consistent() && participantSubscribes == a.subscribes
      requires forall p, s :: p in publishSubscribes && s in publishSubscribes[p] ==> s in a.Followers(p)
      modifies this`posted, this`publishSubscribes, this`participantSubscribes
      ensures posted == old(posted) + tasks
      ensures participantSubscribes == Without(old(participantSubscribes), id)
      ensures publishSubscribes == FollowersLeft(old(publishSubscribes), id)
      ensures SubscriberTasks(old(publishSubscribes), id, tasks) && NoneTwice(tasks)
    {
      hide NoneTwice, Half, Without, SubscriberTasks, FollowersLeft, OnlyOne, In, Maps.Consistent;
      ghost var before := publishSubscribes;
      var keys := participantSubscribes.Keys;
      ghost var gone: Option<Stream> := None;
      tasks := [];
      HalfBegins(a.subscribes, id);
      NoTask();
      while keys != {}
        invariant keys <= a.subscribes.Keys && posted == old(posted) + tasks
        invariant Half(a.subscribes, participantSubscribes, a.subscribes.Keys - keys, id, gone)
        invariant NoneTwice(tasks)
        invariant gone == None ==> tasks == [] && publishSubscribes == before
        invariant gone.Some? ==>
                    SubscriberTasks(before, id, tasks) && publishSubscribes == FollowersLeft(before, id)
        decreases |keys|
      {
        var k :| k in keys;
        ghost var seen := a.subscribes.Keys - keys;
        keys := keys - {k};
        assert seen + {k} == a.subscribes.Keys - keys;
        HalfHas(a.subscribes, participantSubscribes, seen, id, gone, k);
        OneWithId(a, k);
        var found;
        participantSubscribes, found := TakeOut(participantSubscribes, k, id, a.subscribes, seen, gone);
        if found.Some? {
          tasks := SweepFollowers(id);
          gone := found;
        }
      }
      HalfDone(a.subscribes, participantSubscribes, id, gone);
      SubscribersSwept(a, before, id, gone, tasks);
    }

    /** The handler posted for each shutdown notification. */
    method OnWebrtcStreamShutdown(streamId: string) returns (ghost tasks: seq<Task>)
      requires View().Consistent()
      modifies this
      ensures posted == old(posted) + tasks
      ensures ShutsDown(old(View()), View(), tasks, streamId)
      ensures View().Consistent() && NoneTwice(tasks)
    {
      hide NoneTwice, Without, KeysLeft, FollowersLeft, AllPublisherTasks, SubscriberTasks, ShutsDown, Maps.Consistent;
      ghost var a := View();
      tasks := SweepPublishers(streamId);
      ghost var m := View();
      LeftFollow(a, streamId);
      ghost var more := SweepSubscribers(streamId, a);
      BothSwept(a, m, View(), tasks, more, streamId);
      SweepsDiffer(a, streamId, tasks, more);
      NoneTwiceTogether(tasks, more);
      AfterShutdown(a, View(), tasks + more, streamId);
      tasks := tasks + more;
    }
  }
}
