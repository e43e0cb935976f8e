/**
 The handlers a publish stream runs on its worker thread: stop, register, unregister
 (src/transport/publish_stream.cpp, Shutdown in src/transport/webrtc_stream.cpp).
 */
module PublishStreams {
  import opened RoomProtocol

  ghost function Elements(list: seq<Stream>): set<Stream> {
    set s | s in list
  }

  ghost predicate Distinct(list: seq<Stream>) {
    forall i, j :: 0 <= i < j < |list| ==> list[i] != list[j]
  }

  class PublishStream {
    const self: Stream
    var stoped: bool
    var dataObservers: seq<Stream>
    /** Ids the room was notified of, oldest first. */
    var notifications: seq<string>

    ghost predicate Valid()
      reads this
    {
      Distinct(dataObservers) && notifications == if stoped then [self.id] else []
    }

    constructor (self: Stream)
      ensures Valid() && this.self == self && dataObservers == [] && !stoped
    {
      this.self := self;
      stoped, dataObservers, notifications := false, [], [];
    }

    /** However often a stream is shut down, the room hears of it once. */
    method Shutdown()
      requires Valid()
      modifies this`stoped, this`notifications
      ensures Valid() && stoped
    {
      if stoped {
        return;
      }
      stoped := true;
      notifications := notifications + [self.id];
    }

    method RunStop()
      requires Valid()
      modifies this`stoped, this`notifications
      ensures Valid() && stoped
    {
      if stoped {
        return;
      }
      Shutdown();
    }

    method Find(observer: Stream) returns (i: nat)
      ensures i <= |dataObservers|
      ensures i < |dataObservers| ==> dataObservers[i] == observer
      ensures i == |dataObservers| ==> observer !in dataObservers
    {
      i := 0;
      while i < |dataObservers| && dataObservers[i] != observer
        invariant i <= |dataObservers|
        invariant forall j :: 0 <= j < i ==> dataObservers[j] != observer
      {
        i := i + 1;
      }
    }

    /** Posted by RegisterDataObserver. */
    method RunRegister(observer: Stream)
      requires Valid()
      modifies this`dataObservers
      ensures Valid()
      ensures Elements(dataObservers) == Observed(Elements(old(dataObservers)), Register(self, observer), self)
      ensures observer in old(dataObservers) ==> dataObservers == old(dataObservers)
    {
      var i := Find(observer);
      if i == |dataObservers| {
        dataObservers := dataObservers + [observer];
      }
    }

    /** Posted by UnregisterDataObserver. */
    method RunUnregister(observer: Stream)
      requires Valid()
      modifies this`dataObservers
      ensures Valid()
      ensures Elements(dataObservers) == Observed(Elements(old(dataObservers)), Unregister(self, observer), self)
    {
      var i := Find(observer);
      if i < |dataObservers| {
        ghost var before := dataObservers;
        dataObservers := dataObservers[..i] + dataObservers[i + 1..];
        forall x ensures x in dataObservers <==> x in before && x != observer {
          if x in before && x != observer {
            var k :| 0 <= k < |before| && before[k] == x;
            assert x == if k < i then dataObservers[k] else dataObservers[k - 1];
          }
        }
      }
    }
  }
}
