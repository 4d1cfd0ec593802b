/**
 * The publish/subscribe registry: a map from topic name to topic. Subscribing
 * creates a topic on first use, the last unsubscribe deletes it, publishing to
 * an unknown topic does nothing, and polling an unknown topic or subscriber
 * reports `SubNotFound`.
 */
module Registry {
  import Topics

  /** The one error the registry reports (`ErrSubNotFound`). */
  datatype Error = SubNotFound

  datatype Result<T> = Ok(value: T) | Err(error: Error)

  /** The registry's value: each topic name with the state of its topic. */
  type TopicMap = map<string, Topics.TopicState>

  /** Every topic's cursors point into its list. */
  ghost predicate Linked(m: TopicMap)
  {
    forall n :: n in m ==> Topics.Linked(m[n])
  }

  /**
   * Every topic keeps the topic invariant and has at least one subscriber. The
   * per-topic part is reached only through `Healthy`, so that it is unfolded
   * where a proof asks for it.
   */
  ghost predicate Consistent(m: TopicMap)
  {
    && Linked(m)
    && forall n {:trigger Healthy(m, n)} :: n in m ==> Healthy(m, n)
  }

  /** Topic `n` keeps the topic invariant and has at least one subscriber. */
  ghost predicate Healthy(m: TopicMap, n: string)
    requires n in m
  {
    Topics.Valid(m[n]) && |m[n].subscribers| > 0
  }

  /** `PubSub.Subscribe`: create the topic if absent, then register the subscriber with a nil cursor unless it is there. */
  function Subscribed(m: TopicMap, topic: string, sub: string): TopicMap
  {
    var t := if topic in m then m[topic] else Topics.Empty;
    if sub in t.subscribers then m
    else m[topic := t.(subscribers := t.subscribers[sub := Topics.Nil])]
  }

  /**
   * `PubSub.Unsubscribe`: nothing for an unknown topic or subscriber; otherwise
   * release the subscriber's element, drop its entry, and delete the topic when
   * no subscriber is left.
   */
  function Unsubscribed(m: TopicMap, topic: string, sub: string): TopicMap
    requires Linked(m)
  {
    if topic !in m || sub !in m[topic].subscribers then m
    else
      var t := Topics.Detached(m[topic], sub);
      if |t.subscribers| == 0 then m - {topic} else m[topic := t]
  }

  /** `PubSub.Publish`: nothing for an unknown topic; otherwise the topic publishes the text. */
  function Published(m: TopicMap, topic: string, text: string): TopicMap
  {
    if topic !in m then m else m[topic := Topics.Published(m[topic], text)]
  }

  /** `PubSub.Poll`: `SubNotFound` for an unknown topic or subscriber; otherwise the topic's poll. */
  function Polled(m: TopicMap, topic: string, sub: string): (Result<seq<string>>, TopicMap)
    requires Linked(m)
  {
    if topic !in m || sub !in m[topic].subscribers then (Err(SubNotFound), m)
    else
      var (texts, t) := Topics.Polled(m[topic], sub);
      (Ok(texts), m[topic := t])
  }

  // ---------------------------------------------------------------------------
  // Properties

  /** Replacing one topic by a valid topic with a subscriber keeps the registry consistent. */
  lemma ConsistentUpdate(m: TopicMap, topic: string, t: Topics.TopicState)
    requires Consistent(m) && Topics.Valid(t) && |t.subscribers| > 0
    ensures Consistent(m[topic := t])
  {
    var r := m[topic := t];
    forall n | n in r
      ensures Healthy(r, n)
    {
      if n != topic {
        assert Healthy(m, n);
      }
    }
  }

  /** Dropping one topic keeps the registry consistent. */
  lemma ConsistentRemove(m: TopicMap, topic: string)
    requires Consistent(m)
    ensures Consistent(m - {topic})
  {
    var r := m - {topic};
    forall n | n in r
      ensures Healthy(r, n)
    {
      assert Healthy(m, n);
    }
  }

  /**
   * Subscribing leaves a registered subscriber and the whole registry alone;
   * otherwise it creates the topic if absent and adds the subscriber with a nil
   * cursor, changing nothing else.
   */
  lemma SubscribedEffect(m: TopicMap, topic: string, sub: string)
    ensures var r := Subscribed(m, topic, sub);
      && topic in r && sub in r[topic].subscribers
      && (topic in m && sub in m[topic].subscribers ==> r == m)
      && (topic !in m ==> r[topic] == Topics.TopicState(map[sub := Topics.Nil], [], []))
      && (topic in m && sub !in m[topic].subscribers ==>
            r[topic] == m[topic].(subscribers := m[topic].subscribers[sub := Topics.Nil]))
      && r.Keys == m.Keys + {topic}
      && (forall n :: n in m && n != topic ==> r[n] == m[n])
  {
  }

  /** Subscribing keeps the registry consistent. */
  lemma SubscribedConsistent(m: TopicMap, topic: string, sub: string)
    requires Consistent(m)
    ensures Consistent(Subscribed(m, topic, sub))
  {
    if !(topic in m && sub in m[topic].subscribers) {
      assert topic in m ==> Healthy(m, topic);
      var t := if topic in m then m[topic] else Topics.Empty;
      var t' := t.(subscribers := t.subscribers[sub := Topics.Nil]);
      Topics.JoinedValid(t, sub);
      assert sub in t'.subscribers;
      ConsistentUpdate(m, topic, t');
    }
  }

  /** Subscribing twice is the same as subscribing once. */
  lemma SubscribedIdempotent(m: TopicMap, topic: string, sub: string)
    ensures Subscribed(Subscribed(m, topic, sub), topic, sub) == Subscribed(m, topic, sub)
  {
  }

  /**
   * Unsubscribing an unknown topic or subscriber changes nothing. Otherwise the
   * subscriber's element is released, only its entry is removed, and the topic
   * is deleted exactly when it was the last subscriber. The registry stays
   * consistent.
   */
  lemma UnsubscribedEffect(m: TopicMap, topic: string, sub: string)
    requires Consistent(m)
    ensures var r := Unsubscribed(m, topic, sub);
      && Consistent(r)
      && (topic !in m || sub !in m[topic].subscribers ==> r == m)
      && (topic in m && sub in m[topic].subscribers ==>
            && (topic !in r <==> m[topic].subscribers.Keys == {sub})
            && (topic in r ==> r[topic] == Topics.Detached(m[topic], sub))
            && (topic in r ==> r[topic].subscribers == m[topic].subscribers - {sub}))
      && r.Keys <= m.Keys
      && (forall n :: n in m && n != topic ==> n in r && r[n] == m[n])
  {
    if topic in m && sub in m[topic].subscribers {
      var t := m[topic];
      assert Healthy(m, topic);
      Topics.DetachedValid(t, sub);
      var t' := Topics.Detached(t, sub);
      if t.subscribers.Keys == {sub} {
        assert t'.subscribers.Keys == {};
        ConsistentRemove(m, topic);
      } else {
        var other :| other in t.subscribers && other != sub;
        assert other in t'.subscribers;
        ConsistentUpdate(m, topic, t');
      }
    }
  }

  /** Publishing creates no topic, does nothing for an unknown topic, and keeps the registry consistent. */
  lemma PublishedEffect(m: TopicMap, topic: string, text: string)
    requires Consistent(m)
    ensures var r := Published(m, topic, text);
      && Consistent(r)
      && r.Keys == m.Keys
      && (topic !in m ==> r == m)
      && (forall n :: n in m && n != topic ==> r[n] == m[n])
  {
    if topic in m {
      assert Healthy(m, topic);
      Topics.PublishedValid(m[topic], text);
      Topics.PublishedArmsNilCursors(m[topic], text);
      ConsistentUpdate(m, topic, Topics.Published(m[topic], text));
    }
  }

  /**
   * Polling fails with `SubNotFound` exactly when the topic or the subscriber is
   * unknown, and then changes nothing; otherwise the subscriber's cursor is nil
   * afterwards. Either way the registry stays consistent and no other topic
   * changes.
   */
  lemma PolledEffect(m: TopicMap, topic: string, sub: string)
    requires Consistent(m)
    ensures var (res, r) := Polled(m, topic, sub);
      && Consistent(r)
      && (res == Err(SubNotFound) <==> topic !in m || sub !in m[topic].subscribers)
      && (res.Err? ==> r == m)
      && (res.Ok? ==> r.Keys == m.Keys && r[topic].subscribers[sub] == Topics.Nil)
      && (forall n :: n in m && n != topic ==> r[n] == m[n])
  {
    if topic in m && sub in m[topic].subscribers {
      assert Healthy(m, topic);
      Topics.PolledValid(m[topic], sub);
      ConsistentUpdate(m, topic, Topics.Polled(m[topic], sub).1);
    }
  }

  /** After a subscriber unsubscribes, polling it fails. */
  lemma UnsubscribedThenPollFails(m: TopicMap, topic: string, sub: string)
    requires Consistent(m)
    ensures Consistent(Unsubscribed(m, topic, sub))
    ensures Polled(Unsubscribed(m, topic, sub), topic, sub).0 == Err(SubNotFound)
  {
    UnsubscribedEffect(m, topic, sub);
  }

  // ---------------------------------------------------------------------------
  // The imperative registry

  /** `PubSub`: the topic map, updated in place; each topic is its own object. */
  class PubSub {
    var topics: map<string, Topics.Topic>

    /** The registry's value. */
    function Abstract(): TopicMap
      reads this, topics.Values
    {
      map n | n in topics :: topics[n].State()
    }

    /** Distinct names hold distinct topic objects. */
    ghost predicate Separate()
      reads this
    {
      forall a, b :: a in topics && b in topics && a != b ==> topics[a] != topics[b]
    }

    /** The registry invariant: topics are not shared between names, and the value is consistent. */
    ghost predicate Valid()
      reads this, topics.Values
    {
      Separate() && Consistent(Abstract())
    }

    /** Frame: if only the topic under `name` was changed in place, the value changes at `name` only. */
    twostate lemma TopicChanged(name: string)
      requires old(Separate()) && unchanged(this) && name in topics
      requires forall o: Topics.Topic :: o in topics.Values && o != topics[name] ==> unchanged(o)
      ensures Abstract() == old(Abstract())[name := topics[name].State()]
    {
      forall n | n in topics && n != name
        ensures topics[n].State() == old(topics[n].State())
      {
        assert topics[n] in topics.Values;
      }
    }

    /** Frame: if a fresh topic was registered under a new `name` and changed, the value changes at `name` only. */
    twostate lemma TopicAdded(name: string)
      requires old(Separate()) && name !in old(topics) && name in topics
      requires topics == old(topics)[name := topics[name]] && fresh(topics[name])
      requires forall o: Topics.Topic :: o in old(topics.Values) ==> unchanged(o)
      ensures Separate()
      ensures Abstract() == old(Abstract())[name := topics[name].State()]
    {
      forall n | n in topics && n != name
        ensures topics[n].State() == old(topics[n].State())
      {
        assert old(topics[n]) in old(topics.Values);
      }
    }

    /** Frame: if the topic under `name` was dropped and no other topic changed, the value loses `name` only. */
    twostate lemma TopicDropped(name: string)
      requires old(Separate()) && name in old(topics)
      requires topics == old(topics) - {name}
      requires forall o: Topics.Topic :: o in old(topics.Values) && o != old(topics[name]) ==> unchanged(o)
      ensures Separate()
      ensures Abstract() == old(Abstract()) - {name}
    {
      forall n | n in topics
        ensures topics[n].State() == old(topics[n].State())
      {
        assert old(topics[n]) in old(topics.Values);
      }
    }

    /** `New`: an empty registry. */
    constructor ()
      ensures Valid() && Abstract() == map[] && topics == map[]
    {
      topics := map[];
    }

    /** `PubSub.Subscribe`. */
    method Subscribe(topicName: string, subscriberName: string)
      requires Valid()
      modifies this, topics.Values
      ensures Valid()
      ensures Abstract() == Subscribed(old(Abstract()), topicName, subscriberName)
      ensures forall o :: o in topics.Values ==> o in old(topics.Values) || fresh(o)
    {
      ghost var m0 := Abstract();
      var topic: Topics.Topic;
      if topicName in topics {
        topic := topics[topicName];
      } else {
        topic := new Topics.Topic();
        topics := topics[topicName := topic];
      }
      if subscriberName in topic.subscribers {
        return;
      }
      topic.subscribers := topic.subscribers[subscriberName := Topics.Nil];
      if topicName in old(topics) {
        TopicChanged(topicName);
      } else {
        TopicAdded(topicName);
      }
      assert Consistent(Abstract()) by {
        SubscribedConsistent(m0, topicName, subscriberName);
      }
    }

    /** `PubSub.Unsubscribe`. */
    method Unsubscribe(topicName: string, subscriberName: string)
      requires Valid()
      modifies this, topics.Values
      ensures Valid()
      ensures Abstract() == Unsubscribed(old(Abstract()), topicName, subscriberName)
      ensures forall o :: o in topics.Values ==> o in old(topics.Values)
    {
      ghost var m0 := Abstract();
      if topicName !in topics {
        return;
      }
      var topic := topics[topicName];
      if subscriberName !in topic.subscribers {
        return;
      }
      assert topic.State() == m0[topicName];
      topic.Leave(subscriberName);
      if |topic.subscribers| == 0 {
        topics := topics - {topicName};
        TopicDropped(topicName);
      } else {
        TopicChanged(topicName);
      }
      assert Consistent(Abstract()) by {
        UnsubscribedEffect(m0, topicName, subscriberName);
      }
    }

    /** `PubSub.Publish`. */
    method Publish(topicName: string, text: string)
      requires Valid()
      modifies this, topics.Values
      ensures Valid()
      ensures Abstract() == Published(old(Abstract()), topicName, text)
      ensures topics == old(topics)
    {
      ghost var m0 := Abstract();
      if topicName !in topics {
        return;
      }
      var topic := topics[topicName];
      topic.Publish(text);
      TopicChanged(topicName);
      assert Consistent(Abstract()) by {
        PublishedEffect(m0, topicName, text);
      }
    }

    /** `PubSub.Poll`. */
    method Poll(topicName: string, subscriberName: string) returns (res: Result<seq<string>>)
      requires Valid()
      modifies this, topics.Values
      ensures Valid()
      ensures (res, Abstract()) == Polled(old(Abstract()), topicName, subscriberName)
      ensures topics == old(topics)
    {
      ghost var m0 := Abstract();
      if topicName !in topics {
        return Err(SubNotFound);
      }
      var topic := topics[topicName];
      if subscriberName !in topic.subscribers {
        return Err(SubNotFound);
      }
      assert topic.State() == m0[topicName];
      var texts := topic.Poll(subscriberName);
      res := Ok(texts);
      TopicChanged(topicName);
      assert Consistent(Abstract()) by {
        PolledEffect(m0, topicName, subscriberName);
      }
    }
  }
}
