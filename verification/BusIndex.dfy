/** The channel-to-subscribers dictionary both event buses keep under their lock. */
module BusIndex {
  import opened Common

  /** A channel by its bare name, such as `user:<id>` or `room:<id>`. */
  datatype Channel = Channel(name: string)

  type Index<T> = map<Channel, seq<T>>

  /** `self._subs.get(channel, ())` */
  function Bucket<T>(index: Index<T>, c: Channel): seq<T> {
    if c in index then index[c] else []
  }

  /** One subscriber appended to the bucket of each listed channel, in order. */
  function Register<T>(index: Index<T>, channels: seq<Channel>, t: T): Index<T> {
    if channels == [] then index
    else
      var rest := Register(index, channels[..|channels| - 1], t);
      var c := channels[|channels| - 1];
      rest[c := Bucket(rest, c) + [t]]
  }

  /** `list.remove`: the list without its first occurrence of `t`. */
  function RemoveFirst<T(==)>(s: seq<T>, t: T): seq<T>
    requires t in s
  {
    var i := FirstIndex(s, t);
    s[..i] + s[i + 1..]
  }

  /** One channel of `_unsubscribe`: skip a missing bucket or member, drop an emptied bucket. */
  function UnregisterOne<T(==)>(index: Index<T>, c: Channel, t: T): Index<T> {
    if c !in index || t !in index[c] then index
    else
      var bucket := RemoveFirst(index[c], t);
      if bucket == [] then index - {c} else index[c := bucket]
  }

  function Unregister<T(==)>(index: Index<T>, channels: seq<Channel>, t: T): Index<T> {
    if channels == [] then index
    else UnregisterOne(Unregister(index, channels[..|channels| - 1], t), channels[|channels| - 1], t)
  }

  /** No bucket is empty and none lists a subscriber twice. */
  ghost predicate WellFormed<T>(index: Index<T>) {
    forall c :: c in index ==> index[c] != [] && NoDup(index[c])
  }

  ghost predicate Holds<T>(index: Index<T>, c: Channel, t: T) {
    t in Bucket(index, c)
  }

  /** A channel has a bucket exactly when somebody is registered under it. */
  lemma BucketExistsIffHeld<T>(index: Index<T>, c: Channel)
    requires WellFormed(index)
    ensures c in index <==> exists t :: Holds(index, c, t)
  {
    if c in index {
      assert Holds(index, c, index[c][0]);
    }
  }

  /** Registration appends the subscriber to exactly the listed buckets. */
  lemma {:induction false} RegisterBuckets<T>(index: Index<T>, channels: seq<Channel>, t: T)
    requires NoDup(channels)
    ensures forall c :: Bucket(Register(index, channels, t), c) ==
                        if c in channels then Bucket(index, c) + [t] else Bucket(index, c)
    ensures forall c :: c in Register(index, channels, t) <==> c in index || c in channels
  {
    if channels != [] {
      var n := |channels| - 1;
      RegisterBuckets(index, channels[..n], t);
      assert channels == channels[..n] + [channels[n]];
      assert channels[n] !in channels[..n];
    }
  }

  lemma NewcomerKeepsBucket<T>(bucket: seq<T>, t: T)
    requires NoDup(bucket) && t !in bucket
    ensures NoDup(bucket + [t])
  {
  }

  lemma {:induction false} RegisterKeepsWellFormed<T>(index: Index<T>, channels: seq<Channel>, t: T)
    requires WellFormed(index) && NoDup(channels)
    requires forall c :: c in index ==> t !in index[c]
    ensures WellFormed(Register(index, channels, t))
  {
    RegisterBuckets(index, channels, t);
    var after := Register(index, channels, t);
    forall c | c in after
      ensures after[c] != [] && NoDup(after[c])
    {
      assert after[c] == Bucket(after, c);
      if c in channels {
        NewcomerKeepsBucket(Bucket(index, c), t);
      } else {
        assert after[c] == index[c];
      }
    }
  }

  lemma RemoveFirstMembers<T>(s: seq<T>, t: T)
    requires NoDup(s) && t in s
    ensures NoDup(RemoveFirst(s, t))
    ensures forall u :: u in RemoveFirst(s, t) <==> u in s && u != t
  {
    var i := FirstIndex(s, t);
    var r := RemoveFirst(s, t);
    forall u
      ensures u in r <==> u in s && u != t
    {
      if u in s && u != t {
        var k :| 0 <= k < |s| && s[k] == u;
        assert r[if k < i then k else k - 1] == u;
      }
    }
  }

  lemma UnregisterOneMembers<T>(index: Index<T>, c: Channel, t: T)
    requires WellFormed(index)
    ensures WellFormed(UnregisterOne(index, c, t))
    ensures forall d, u :: Holds(UnregisterOne(index, c, t), d, u) <==> Holds(index, d, u) && !(d == c && u == t)
  {
    if c in index && t in index[c] {
      RemoveFirstMembers(index[c], t);
      var after := UnregisterOne(index, c, t);
      assert forall d | d != c :: Bucket(after, d) == Bucket(index, d);
      forall u
        ensures Holds(after, c, u) <==> Holds(index, c, u) && u != t
      {
        if RemoveFirst(index[c], t) == [] {
          assert u in RemoveFirst(index[c], t) <==> u in index[c] && u != t;
        }
      }
    }
  }

  /** Unregistering removes the subscriber from the listed buckets and touches nothing else. */
  lemma {:induction false} UnregisterMembers<T>(index: Index<T>, channels: seq<Channel>, t: T)
    requires WellFormed(index)
    ensures WellFormed(Unregister(index, channels, t))
    ensures forall c, u :: Holds(Unregister(index, channels, t), c, u) <==>
                           Holds(index, c, u) && !(u == t && c in channels)
  {
    if channels != [] {
      var n := |channels| - 1;
      UnregisterMembers(index, channels[..n], t);
      UnregisterOneMembers(Unregister(index, channels[..n], t), channels[n], t);
      assert channels == channels[..n] + [channels[n]];
    }
  }
}
