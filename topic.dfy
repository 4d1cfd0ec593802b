/**
 * One topic of the publish/subscribe registry: a single message list shared by
 * all subscribers, one cursor per subscriber marking its oldest unread message,
 * and a per-message count of the cursors that point at it.
 *
 * The Go list `container/list` is modelled by the sequence of element ids in list
 * order; `PushBack` is append, `Remove` is removal of one id, and `Next` is the
 * successor by index. Each list element holds exactly one message, so one id
 * names both.
 */
module Topics {

  /** Identity of a list element and of the message it holds. */
  type Id = nat

  /** A subscriber's cursor: `Nil` when it has nothing unread, otherwise the element of its oldest unread message. */
  datatype Cursor = Nil | At(id: Id)

  /** A published message and the number of cursors counted as pointing at its element. */
  datatype Message = Message(text: string, subCount: int)

  /**
   * The state of one topic.
   * `subscribers` maps each subscriber name to its cursor;
   * `messages` is the message list, as element ids in list order;
   * `store` holds every message the topic ever allocated, indexed by its id.
   * An element removed from the list keeps its message in `store`.
   */
  datatype TopicState = TopicState(subscribers: map<string, Cursor>, messages: seq<Id>, store: seq<Message>)

  /** A freshly created topic: no subscribers, an empty list. */
  const Empty: TopicState := TopicState(map[], [], [])

  /** The subscribers whose cursor points at element `id`. */
  function RefsTo(subs: map<string, Cursor>, id: Id): set<string>
  {
    set s | s in subs && subs[s] == At(id)
  }

  /** The subscribers that have no unread message. */
  function NilCursors(subs: map<string, Cursor>): set<string>
  {
    set s | s in subs && subs[s] == Nil
  }

  /** Element ids in strictly increasing order: list order is publish order, and no element occurs twice. */
  ghost predicate Ascending(s: seq<Id>)
  {
    forall i, j :: 0 <= i < j < |s| ==> s[i] < s[j]
  }

  /** Every listed element has its message allocated. */
  ghost predicate InStore(ids: seq<Id>, store: seq<Message>)
  {
    forall i :: 0 <= i < |ids| ==> ids[i] < |store|
  }

  /** Every listed element has its message, and every non-nil cursor points at an element still in the list. */
  ghost predicate Linked(t: TopicState)
  {
    && InStore(t.messages, t.store)
    && (forall s :: s in t.subscribers && t.subscribers[s].At? ==> t.subscribers[s].id in t.messages)
  }

  /**
   * The topic invariant: the list holds allocated elements in publish order,
   * every non-nil cursor points at an element still in the list, and every
   * message's `subCount` is the number of cursors pointing at its element.
   */
  ghost predicate Valid(t: TopicState)
  {
    && Ascending(t.messages)
    && Linked(t)
    && (forall id {:trigger Counted(t, id)} :: 0 <= id < |t.store| ==> Counted(t, id))
  }

  /**
   * Element `id`'s count is the number of cursors pointing at it. The topic
   * invariant reaches it only through this predicate, so that a proof unfolds
   * it only where it names it.
   */
  ghost predicate Counted(t: TopicState, id: Id)
    requires id < |t.store|
  {
    t.store[id].subCount == |RefsTo(t.subscribers, id)|
  }

  /** The position of element `x` in the list: where a Go element pointer sits. */
  function IndexOf(s: seq<Id>, x: Id): (r: nat)
    requires x in s
    ensures r < |s| && s[r] == x && x !in s[..r]
  {
    if s[0] == x then 0
    else
      var k := IndexOf(s[1..], x);
      assert s[..k + 1] == [s[0]] + s[1..][..k];
      k + 1
  }

  /** `container/list` Remove: unlinks element `x`; a no-op when `x` is not in the list. */
  function Remove(s: seq<Id>, x: Id): seq<Id>
  {
    if s == [] then []
    else if s[0] == x then s[1..]
    else [s[0]] + Remove(s[1..], x)
  }

  /** The texts of the messages at the given elements, in order. */
  function Texts(ids: seq<Id>, store: seq<Message>): seq<string>
    requires InStore(ids, store)
  {
    seq(|ids|, i requires 0 <= i < |ids| => store[ids[i]].text)
  }

  /** What a walk from element `e` to the tail of the list collects. */
  function Unread(t: TopicState, e: Id): seq<string>
    requires InStore(t.messages, t.store) && e in t.messages
  {
    Texts(t.messages[IndexOf(t.messages, e)..], t.store)
  }

  /** The cursors after the nil cursors of the `visited` subscribers are pointed at element `e`. */
  function Armed(subs: map<string, Cursor>, visited: set<string>, e: Id): map<string, Cursor>
  {
    map s | s in subs :: if s in visited && subs[s] == Nil then At(e) else subs[s]
  }

  /**
   * `_topic.publish`: a new message is pushed at the tail; every cursor that was
   * nil now points at it and is counted; every other cursor is left alone.
   */
  function Published(t: TopicState, text: string): TopicState
  {
    var e := |t.store|;
    TopicState(
      Armed(t.subscribers, t.subscribers.Keys, e),
      t.messages + [e],
      t.store + [Message(text, |NilCursors(t.subscribers)|)])
  }

  /** `_topic.releaseMsg` on a non-nil element: the count drops by one, and the element leaves the list when it reaches 0. */
  function Released(t: TopicState, e: Id): TopicState
    requires e < |t.store|
  {
    var m := t.store[e].(subCount := t.store[e].subCount - 1);
    t.(messages := if m.subCount == 0 then Remove(t.messages, e) else t.messages,
       store := t.store[e := m])
  }

  /**
   * `_topic.poll` for subscriber `name`: the texts from its cursor to the tail,
   * and the state after the starting element is released and the cursor reset.
   */
  function Polled(t: TopicState, name: string): (seq<string>, TopicState)
    requires Linked(t) && name in t.subscribers
  {
    match t.subscribers[name]
    case Nil => ([], t)
    case At(e) =>
      var t' := Released(t, e);
      (Unread(t, e), t'.(subscribers := t'.subscribers[name := Nil]))
  }

  /** What `PubSub.Unsubscribe` does to a topic it finds the subscriber in: release its element, drop its entry. */
  function Detached(t: TopicState, name: string): TopicState
    requires Linked(t) && name in t.subscribers
  {
    var t' := match t.subscribers[name]
      case Nil => t
      case At(e) => Released(t, e);
    t'.(subscribers := t'.subscribers - {name})
  }

  /** A run of publishes, oldest first. */
  function PublishedAll(t: TopicState, texts: seq<string>): TopicState
    decreases |texts|
  {
    if texts == [] then t else PublishedAll(Published(t, texts[0]), texts[1..])
  }

  // ---------------------------------------------------------------------------
  // Properties of the list operations

  /** The position of an element is the first index holding it. */
  lemma IndexOfFirst(s: seq<Id>, x: Id, k: nat)
    requires k < |s| && s[k] == x && x !in s[..k]
    ensures IndexOf(s, x) == k
  {
  }

  /** Remove unlinks the first occurrence of `x` and keeps every other element in its order; absent `x` changes nothing. */
  lemma {:induction false} RemoveUnlinks(s: seq<Id>, x: Id)
    ensures x in s ==> Remove(s, x) == s[..IndexOf(s, x)] + s[IndexOf(s, x) + 1..]
    ensures x !in s ==> Remove(s, x) == s
    decreases |s|
  {
    if s != [] && s[0] != x {
      RemoveUnlinks(s[1..], x);
      if x in s {
        assert s[..IndexOf(s, x)] == [s[0]] + s[1..][..IndexOf(s[1..], x)];
      }
    }
  }

  /** Removing one element from an ascending list keeps it ascending and removes exactly that element. */
  lemma {:induction false} RemoveKeepsOthers(s: seq<Id>, x: Id)
    requires Ascending(s)
    ensures Ascending(Remove(s, x))
    ensures forall y :: y in Remove(s, x) <==> y in s && y != x
    decreases |s|
  {
    if s != [] {
      var tail := s[1..];
      assert forall y :: y in tail ==> s[0] < y;
      if s[0] != x {
        RemoveKeepsOthers(tail, x);
        var r := Remove(tail, x);
        assert Remove(s, x) == [s[0]] + r;
        forall i, j | 0 <= i < j < |r| + 1
          ensures ([s[0]] + r)[i] < ([s[0]] + r)[j]
        {
          if i == 0 {
            assert r[j - 1] in r;
          }
        }
      }
    }
  }

  // ---------------------------------------------------------------------------
  // Subscribe

  /** A new subscriber with a nil cursor points at nothing, so the topic invariant is kept and every count stays. */
  lemma JoinedValid(t: TopicState, name: string)
    requires Valid(t) && name !in t.subscribers
    ensures Valid(t.(subscribers := t.subscribers[name := Nil]))
  {
    var r := t.(subscribers := t.subscribers[name := Nil]);
    forall id | 0 <= id < |r.store|
      ensures Counted(r, id)
    {
      assert Counted(t, id);
      assert RefsTo(r.subscribers, id) == RefsTo(t.subscribers, id);
    }
  }

  // ---------------------------------------------------------------------------
  // Publish

  /** A publish keeps the topic invariant. */
  lemma PublishedValid(t: TopicState, text: string)
    requires Valid(t)
    ensures Valid(Published(t, text))
  {
    var r := Published(t, text);
    var e := |t.store|;
    forall id | 0 <= id < |r.store|
      ensures Counted(r, id)
    {
      if id == e {
        assert RefsTo(r.subscribers, e) == NilCursors(t.subscribers);
      } else {
        assert Counted(t, id);
        assert RefsTo(r.subscribers, id) == RefsTo(t.subscribers, id);
      }
    }
  }

  /**
   * A publish appends exactly one element at the tail; the cursors now pointing
   * at it are exactly the ones that were nil, and its count is their number;
   * every non-nil cursor is unchanged.
   */
  lemma PublishedArmsNilCursors(t: TopicState, text: string)
    requires Linked(t)
    ensures var r := Published(t, text); var e := |t.store|;
      && e !in t.messages
      && r.messages == t.messages + [e]
      && r.store[e].text == text
      && r.subscribers.Keys == t.subscribers.Keys
      && RefsTo(r.subscribers, e) == NilCursors(t.subscribers)
      && r.store[e].subCount == |NilCursors(t.subscribers)|
      && (forall s :: s in t.subscribers && t.subscribers[s].At? ==> r.subscribers[s] == t.subscribers[s])
  {
    var r := Published(t, text);
    var e := |t.store|;
    assert RefsTo(r.subscribers, e) == NilCursors(t.subscribers);
  }

  // ---------------------------------------------------------------------------
  // Release

  /**
   * Releasing the element a cursor points at decrements its count; the element
   * leaves the list exactly when the count reaches 0; every other element stays,
   * in the same order.
   */
  lemma ReleasedEffect(t: TopicState, e: Id)
    requires Valid(t) && e in t.messages
    ensures var r := Released(t, e);
      && r.store[e].subCount == t.store[e].subCount - 1
      && (e !in r.messages <==> r.store[e].subCount == 0)
      && Ascending(r.messages)
      && (forall x :: x != e ==> (x in r.messages <==> x in t.messages))
      && (forall id :: 0 <= id < |t.store| && id != e ==> r.store[id] == t.store[id])
  {
    RemoveKeepsOthers(t.messages, e);
  }

  /**
   * Taking a cursor off element `e` (by resetting it to nil or deleting the
   * subscriber) and releasing `e` keeps the topic invariant. `subs'` is the
   * subscriber map after the change.
   */
  lemma ReleasedCursorValid(t: TopicState, name: string, subs': map<string, Cursor>)
    requires Valid(t) && name in t.subscribers && t.subscribers[name].At?
    requires forall s :: s in subs' ==> s in t.subscribers && (if s == name then subs'[s] == Nil else subs'[s] == t.subscribers[s])
    requires forall s :: s in t.subscribers && s != name ==> s in subs'
    ensures Valid(Released(t, t.subscribers[name].id).(subscribers := subs'))
  {
    var e := t.subscribers[name].id;
    var r := Released(t, e).(subscribers := subs');
    assert Counted(r, e) by {
      assert Counted(t, e);
      assert RefsTo(subs', e) == RefsTo(t.subscribers, e) - {name};
    }
    forall id | 0 <= id < |r.store| && id != e
      ensures Counted(r, id)
    {
      assert Counted(t, id);
      assert RefsTo(subs', id) == RefsTo(t.subscribers, id);
    }
    assert Ascending(r.messages) && InStore(r.messages, r.store) by {
      RemoveKeepsOthers(t.messages, e);
      forall i | 0 <= i < |r.messages|
        ensures r.messages[i] < |r.store|
      {
        assert r.messages[i] in t.messages;
      }
    }
    forall s | s in r.subscribers && r.subscribers[s].At?
      ensures r.subscribers[s].id in r.messages
    {
      var x := r.subscribers[s].id;
      RemoveKeepsOthers(t.messages, e);
      if x == e {
        assert s in RefsTo(subs', e);
      }
    }
  }

  // ---------------------------------------------------------------------------
  // Poll

  /**
   * A poll keeps the topic invariant, and the cursor is nil afterwards, so an
   * immediate second poll returns nothing and changes nothing.
   */
  lemma PolledValid(t: TopicState, name: string)
    requires Valid(t) && name in t.subscribers
    ensures Valid(Polled(t, name).1)
    ensures Polled(Polled(t, name).1, name) == ([], Polled(t, name).1)
  {
    if t.subscribers[name].At? {
      ReleasedCursorValid(t, name, t.subscribers[name := Nil]);
    }
  }

  /**
   * A poll returns nothing and changes nothing exactly when the cursor is nil;
   * otherwise the first text is that of the cursor's element and the last that
   * of the tail. Either way every subscriber stays and the cursor is nil
   * afterwards.
   */
  lemma PolledResult(t: TopicState, name: string)
    requires Linked(t) && name in t.subscribers
    ensures Polled(t, name).0 == [] <==> t.subscribers[name] == Nil
    ensures Polled(t, name).0 == [] ==> Polled(t, name).1 == t
    ensures t.subscribers[name].At? ==>
      var texts := Polled(t, name).0;
      && texts[0] == t.store[t.subscribers[name].id].text
      && texts[|texts| - 1] == t.store[t.messages[|t.messages| - 1]].text
    ensures Polled(t, name).1.subscribers.Keys == t.subscribers.Keys
    ensures Polled(t, name).1.subscribers[name] == Nil
  {
  }

  // ---------------------------------------------------------------------------
  // Unsubscribe

  /** Detaching a subscriber keeps the topic invariant and removes only that subscriber's entry. */
  lemma DetachedValid(t: TopicState, name: string)
    requires Valid(t) && name in t.subscribers
    ensures var r := Detached(t, name);
      && Valid(r)
      && r.subscribers == t.subscribers - {name}
  {
    if t.subscribers[name].At? {
      ReleasedCursorValid(t, name, t.subscribers - {name});
    } else {
      var r := Detached(t, name);
      forall id | 0 <= id < |r.store|
        ensures Counted(r, id)
      {
        assert Counted(t, id);
        assert RefsTo(r.subscribers, id) == RefsTo(t.subscribers, id);
      }
    }
  }

  // ---------------------------------------------------------------------------
  // A caught-up subscriber reads every later publish

  /** A publish keeps every cursor pointing into the list and every subscriber in place. */
  lemma PublishedLinked(t: TopicState, text: string)
    requires Linked(t)
    ensures Linked(Published(t, text))
    ensures Published(t, text).subscribers.Keys == t.subscribers.Keys
  {
  }

  /** A run of publishes keeps every cursor pointing into the list and every subscriber in place. */
  lemma {:induction false} PublishedAllLinked(t: TopicState, texts: seq<string>)
    requires Linked(t)
    ensures Linked(PublishedAll(t, texts))
    ensures PublishedAll(t, texts).subscribers.Keys == t.subscribers.Keys
    decreases |texts|
  {
    if texts != [] {
      PublishedLinked(t, texts[0]);
      PublishedAllLinked(Published(t, texts[0]), texts[1..]);
    }
  }

  /** Appending an element with a new message adds its text at the end of what a walk from any listed element collects. */
  lemma UnreadAfterPush(t: TopicState, e: Id, m: Message)
    requires InStore(t.messages, t.store) && e in t.messages
    ensures var t1 := t.(messages := t.messages + [|t.store|], store := t.store + [m]);
      InStore(t1.messages, t1.store) && e in t1.messages && Unread(t1, e) == Unread(t, e) + [m.text]
  {
    var t1 := t.(messages := t.messages + [|t.store|], store := t.store + [m]);
    var i := IndexOf(t.messages, e);
    assert t1.messages[..i] == t.messages[..i];
    IndexOfFirst(t1.messages, e, i);
    assert t1.messages[i..] == t.messages[i..] + [|t.store|];
  }

  /**
   * While nobody polls or unsubscribes, a subscriber whose cursor points at `e`
   * keeps that cursor, and its unread texts grow by exactly the published ones.
   */
  lemma {:induction false} LaggingReadsAll(t: TopicState, name: string, e: Id, texts: seq<string>)
    requires InStore(t.messages, t.store) && e in t.messages
    requires name in t.subscribers && t.subscribers[name] == At(e)
    ensures var r := PublishedAll(t, texts);
      && InStore(r.messages, r.store) && e in r.messages
      && name in r.subscribers && r.subscribers[name] == At(e)
      && Unread(r, e) == Unread(t, e) + texts
    decreases |texts|
  {
    if texts != [] {
      var t1 := Published(t, texts[0]);
      UnreadAfterPush(t, e, t1.store[|t.store|]);
      LaggingReadsAll(t1, name, e, texts[1..]);
      assert [texts[0]] + texts[1..] == texts;
    }
  }

  /**
   * A subscriber that is caught up (nil cursor) and then sees a run of
   * publishes, with no poll or unsubscribe in between, polls exactly those
   * texts, in publish order.
   */
  lemma CaughtUpReadsAll(t: TopicState, name: string, texts: seq<string>)
    requires Linked(t) && name in t.subscribers && t.subscribers[name] == Nil
    ensures Linked(PublishedAll(t, texts)) && name in PublishedAll(t, texts).subscribers
    ensures Polled(PublishedAll(t, texts), name).0 == texts
  {
    PublishedAllLinked(t, texts);
    if texts != [] {
      var t1 := Published(t, texts[0]);
      var e := |t.store|;
      assert t1.subscribers[name] == At(e);
      assert e !in t.messages;
      assert t1.messages[..|t.messages|] == t.messages;
      IndexOfFirst(t1.messages, e, |t.messages|);
      assert Unread(t1, e) == [texts[0]];
      LaggingReadsAll(t1, name, e, texts[1..]);
      var r := PublishedAll(t1, texts[1..]);
      assert PublishedAll(t, texts) == r;
      assert [texts[0]] + texts[1..] == texts;
      assert Polled(r, name).0 == Unread(r, e);
    }
  }

  /** Visiting one more subscriber `k` adds one to the count of visited nil cursors exactly when `k`'s cursor is nil. */
  lemma NilCursorsCounted(subs: map<string, Cursor>, pending: set<string>, k: string)
    requires k in pending && k in subs
    ensures |NilCursors(subs) - (pending - {k})| == |NilCursors(subs) - pending| + if subs[k] == Nil then 1 else 0
  {
    if subs[k] == Nil {
      assert NilCursors(subs) - (pending - {k}) == (NilCursors(subs) - pending) + {k};
    } else {
      assert NilCursors(subs) - (pending - {k}) == NilCursors(subs) - pending;
    }
  }

  /** Visiting one more subscriber `k` updates only `k`'s cursor. */
  lemma ArmedStep(subs: map<string, Cursor>, visited: set<string>, k: string, e: Id)
    requires k in subs && k !in visited
    ensures Armed(subs, visited + {k}, e) == Armed(subs, visited, e)[k := if subs[k] == Nil then At(e) else subs[k]]
  {
  }

  /** `_topic.publish` part way through its loop: the subscribers in `pending` are not visited yet. */
  function Arming(t: TopicState, text: string, pending: set<string>): TopicState
  {
    var e := |t.store|;
    TopicState(
      Armed(t.subscribers, t.subscribers.Keys - pending, e),
      t.messages + [e],
      t.store + [Message(text, |NilCursors(t.subscribers) - pending|)])
  }

  /** One iteration of the publish loop: visiting `k` arms its cursor and counts it exactly when it was nil. */
  lemma ArmingStep(t: TopicState, text: string, pending: set<string>, k: string)
    requires k in pending && pending <= t.subscribers.Keys
    ensures var a, a' := Arming(t, text, pending), Arming(t, text, pending - {k}); var e := |t.store|;
      && k in a.subscribers && a.subscribers[k] == t.subscribers[k] && |a.store| == e + 1
      && a'.messages == a.messages
      && a'.subscribers == (if t.subscribers[k] == Nil then a.subscribers[k := At(e)] else a.subscribers)
      && a'.store == (if t.subscribers[k] == Nil
                      then a.store[e := a.store[e].(subCount := a.store[e].subCount + 1)]
                      else a.store)
  {
    var e := |t.store|;
    NilCursorsCounted(t.subscribers, pending, k);
    ArmedStep(t.subscribers, t.subscribers.Keys - pending, k, e);
    assert t.subscribers.Keys - (pending - {k}) == (t.subscribers.Keys - pending) + {k};
  }

  /** Before any subscriber is visited, the loop has only pushed the new message, with count 0. */
  lemma ArmingStart(t: TopicState, text: string)
    ensures Arming(t, text, t.subscribers.Keys)
         == t.(messages := t.messages + [|t.store|], store := t.store + [Message(text, 0)])
  {
    assert NilCursors(t.subscribers) - t.subscribers.Keys == {};
    assert Armed(t.subscribers, t.subscribers.Keys - t.subscribers.Keys, |t.store|) == t.subscribers;
  }

  /** Once every subscriber is visited, the loop has computed the publish. */
  lemma ArmingDone(t: TopicState, text: string)
    ensures Arming(t, text, {}) == Published(t, text)
  {
    assert t.subscribers.Keys - {} == t.subscribers.Keys;
    assert NilCursors(t.subscribers) - {} == NilCursors(t.subscribers);
  }

  // ---------------------------------------------------------------------------
  // The imperative topic

  /** `_topic`: the subscriber map and the message list, both updated in place. */
  class Topic {
    var subscribers: map<string, Cursor>
    var messages: seq<Id>
    var store: seq<Message>

    /** The topic's value. */
    function State(): TopicState
      reads this
    {
      TopicState(subscribers, messages, store)
    }

    /** A new topic: empty subscriber map, empty list. */
    constructor ()
      ensures State() == Empty
    {
      subscribers := map[];
      messages := [];
      store := [];
    }

    /** `_topic.publish`: push a new message, then point every nil cursor at it, counting each. */
    method Publish(text: string)
      modifies this
      ensures State() == Published(old(State()), text)
    {
      ghost var t0 := State();
      var e := |store|;
      store := store + [Message(text, 0)];
      messages := messages + [e];
      var pending := subscribers.Keys;
      ArmingStart(t0, text);
      // Naming the cursor map of the invariant keeps the solver from unfolding `Armed` blindly.
      assert Arming(t0, text, pending).subscribers == subscribers;
      while pending != {}
        invariant pending <= t0.subscribers.Keys
        invariant State() == Arming(t0, text, pending)
        decreases pending
      {
        var k :| k in pending;
        assert subscribers == Arming(t0, text, pending).subscribers;
        ghost var next := Arming(t0, text, pending - {k});
        assert && subscribers[k] == t0.subscribers[k]
               && next.messages == messages
               && next.subscribers == (if subscribers[k] == Nil then subscribers[k := At(e)] else subscribers)
               && next.store == (if subscribers[k] == Nil
                                 then store[e := store[e].(subCount := store[e].subCount + 1)]
                                 else store)
        by {
          ArmingStep(t0, text, pending, k);
        }
        if subscribers[k] == Nil {
          store := store[e := store[e].(subCount := store[e].subCount + 1)];
          subscribers := subscribers[k := At(e)];
        }
        pending := pending - {k};
      }
      ArmingDone(t0, text);
    }

    /**
     * `_topic.poll`: walk from the subscriber's cursor to the tail collecting
     * texts; if anything was collected, release the starting element and reset
     * the cursor to nil.
     */
    method Poll(name: string) returns (texts: seq<string>)
      requires Linked(State()) && name in subscribers
      modifies this
      ensures (texts, State()) == Polled(old(State()), name)
    {
      var e := subscribers[name];
      texts := [];
      if e.At? {
        var first := IndexOf(messages, e.id);
        var curr := first;
        while curr < |messages|
          invariant first <= curr <= |messages|
          invariant texts == Texts(messages[first..curr], store)
        {
          texts := texts + [store[messages[curr]].text];
          curr := curr + 1;
        }
        assert messages[first..curr] == messages[first..];
      }
      if |texts| > 0 {
        ReleaseMsg(e);
        subscribers := subscribers[name := Nil];
      }
    }

    /**
     * The part of `PubSub.Unsubscribe` that acts on the topic: release the
     * subscriber's element if its cursor is non-nil, then drop its entry.
     */
    method Leave(name: string)
      requires Linked(State()) && name in subscribers
      modifies this
      ensures State() == Detached(old(State()), name)
    {
      var sub := subscribers[name];
      if sub.At? {
        ReleaseMsg(sub);
      }
      subscribers := subscribers - {name};
    }

    /** `_topic.releaseMsg`: decrement the element's count, unlinking it when the count reaches 0; nothing for nil. */
    method ReleaseMsg(e: Cursor)
      requires e.At? ==> e.id < |store|
      modifies this
      ensures State() == if e.At? then Released(old(State()), e.id) else old(State())
    {
      if e.At? {
        var m := store[e.id];
        store := store[e.id := m.(subCount := m.subCount - 1)];
        if store[e.id].subCount == 0 {
          messages := Remove(messages, e.id);
        }
      }
    }
  }
}
