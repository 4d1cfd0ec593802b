/**
 * Concrete runs of the registry: the run of the package's own poll test, and
 * two runs that show behaviours the code allows (a message that no cursor will
 * ever release, and a message that a lagging subscriber never reads).
 */
module Scenarios {
  import opened Topics
  import Registry

  /** `TestPoll` in pubsub_test.go: the calls on "t0" before the first poll. */
  function PollTestFirstTopic(): Registry.TopicMap
  {
    var m1 := Registry.Subscribed(map[], "t0", "s0");
    var m2 := Registry.Published(m1, "t0", "aaa");
    var m3 := Registry.Subscribed(m2, "t0", "s1");
    Registry.Published(m3, "t0", "bbb")
  }

  /** `TestPoll` in pubsub_test.go, up to its first poll. */
  function PollTestSetup(): Registry.TopicMap
  {
    var m5 := Registry.Subscribed(PollTestFirstTopic(), "t1", "s0");
    Registry.Published(m5, "t1", "ccc")
  }

  /** The state of topic "t0" after the setup: both cursors armed, one element each. */
  function T0AfterSetup(): TopicState
  {
    TopicState(map["s0" := At(0), "s1" := At(1)], [0, 1], [Message("aaa", 1), Message("bbb", 1)])
  }

  /** The state of topic "t1" after the setup. */
  function T1AfterSetup(): TopicState
  {
    TopicState(map["s0" := At(0)], [0], [Message("ccc", 1)])
  }

  /** The registry after the setup. */
  function AfterSetup(): Registry.TopicMap
  {
    map["t0" := T0AfterSetup(), "t1" := T1AfterSetup()]
  }

  /** Each subscriber of "t0" has its cursor at the first text published after it subscribed. */
  lemma PollTestFirstTopicState()
    ensures PollTestFirstTopic() == map["t0" := T0AfterSetup()]
  {
    var m1 := Registry.Subscribed(map[], "t0", "s0");
    assert m1 == map["t0" := TopicState(map["s0" := Nil], [], [])];
    var p := Published(m1["t0"], "aaa");
    assert NilCursors(map["s0" := Nil]) == {"s0"};
    assert p.subscribers == map["s0" := At(0)];
    assert p.messages == [0];
    assert p.store == [Message("aaa", 1)];
    var m2 := Registry.Published(m1, "t0", "aaa");
    assert m2 == map["t0" := TopicState(map["s0" := At(0)], [0], [Message("aaa", 1)])];
    var m3 := Registry.Subscribed(m2, "t0", "s1");
    var subs3 := map["s0" := At(0), "s1" := Nil];
    assert m3 == map["t0" := TopicState(subs3, [0], [Message("aaa", 1)])];
    var q := Published(m3["t0"], "bbb");
    assert NilCursors(subs3) == {"s1"};
    assert q.subscribers == map["s0" := At(0), "s1" := At(1)];
    assert q.messages == [0, 1];
    assert q.store == [Message("aaa", 1), Message("bbb", 1)];
  }

  /** The setup of `TestPoll` arms each subscriber's cursor at the first text published after it subscribed. */
  lemma PollTestSetupState()
    ensures PollTestSetup() == AfterSetup()
  {
    PollTestFirstTopicState();
    var m5 := Registry.Subscribed(PollTestFirstTopic(), "t1", "s0");
    assert m5 == map["t0" := T0AfterSetup(), "t1" := TopicState(map["s0" := Nil], [], [])];
    var r := Published(m5["t1"], "ccc");
    assert NilCursors(map["s0" := Nil]) == {"s0"};
    assert r.subscribers == map["s0" := At(0)];
    assert r.messages == [0];
    assert r.store == [Message("ccc", 1)];
  }

  /** Topic "t0" after "s0" polled it. */
  function T0AfterFirstPoll(): TopicState
  {
    TopicState(map["s0" := Nil, "s1" := At(1)], [1], [Message("aaa", 0), Message("bbb", 1)])
  }

  /** Topic "t0" after "s1" polled it too: its list is empty. */
  function T0AfterSecondPoll(): TopicState
  {
    TopicState(map["s0" := Nil, "s1" := Nil], [], [Message("aaa", 0), Message("bbb", 0)])
  }

  /** Topic "t1" after "s0" polled it: its list is empty. */
  function T1AfterPoll(): TopicState
  {
    TopicState(map["s0" := Nil], [], [Message("ccc", 0)])
  }

  /** "s0" polls "t0" right after the setup. */
  lemma T0FirstPoll()
    ensures Linked(T0AfterSetup())
    ensures Polled(T0AfterSetup(), "s0") == (["aaa", "bbb"], T0AfterFirstPoll())
  {
    var t := T0AfterSetup();
    assert Unread(t, 0) == ["aaa", "bbb"];
    assert Released(t, 0).messages == [1];
    assert Released(t, 0).store == [Message("aaa", 0), Message("bbb", 1)];
    assert t.subscribers["s0" := Nil] == map["s0" := Nil, "s1" := At(1)];
  }

  /** "s1" polls "t0" after "s0" did. */
  lemma T0SecondPoll()
    ensures Linked(T0AfterFirstPoll())
    ensures Polled(T0AfterFirstPoll(), "s1") == (["bbb"], T0AfterSecondPoll())
  {
    var t := T0AfterFirstPoll();
    assert Unread(t, 1) == ["bbb"];
    assert Released(t, 1).messages == [];
    assert Released(t, 1).store == [Message("aaa", 0), Message("bbb", 0)];
    assert t.subscribers["s1" := Nil] == map["s0" := Nil, "s1" := Nil];
  }

  /** "s0" polls "t1" right after the setup. */
  lemma T1Poll()
    ensures Linked(T1AfterSetup())
    ensures Polled(T1AfterSetup(), "s0") == (["ccc"], T1AfterPoll())
  {
    var t := T1AfterSetup();
    assert Unread(t, 0) == ["ccc"];
    assert Released(t, 0).messages == [];
    assert Released(t, 0).store == [Message("ccc", 0)];
    assert t.subscribers["s0" := Nil] == map["s0" := Nil];
  }

  /**
   * `TestPoll`: "s0" reads both texts of "t0", then "s1" reads the one
   * published after it subscribed, then "s0" reads the one text of "t1"; after
   * that both topics' lists are empty.
   */
  lemma PollTest()
    ensures var m0 := AfterSetup();
      var m1 := m0["t0" := T0AfterFirstPoll()];
      var m2 := m1["t0" := T0AfterSecondPoll()];
      var m3 := m2["t1" := T1AfterPoll()];
      && Registry.Linked(m0) && Registry.Linked(m1) && Registry.Linked(m2)
      && Registry.Polled(m0, "t0", "s0") == (Registry.Ok(["aaa", "bbb"]), m1)
      && Registry.Polled(m1, "t0", "s1") == (Registry.Ok(["bbb"]), m2)
      && Registry.Polled(m2, "t1", "s0") == (Registry.Ok(["ccc"]), m3)
      && m3["t0"].messages == [] && m3["t1"].messages == []
  {
    T0FirstPoll();
    T0SecondPoll();
    T1Poll();
  }

  /** The setup calls of `TestPoll` in pubsub_test.go, made on a new registry object. */
  method PollTestSetupRun() returns (ps: Registry.PubSub)
    ensures fresh(ps) && fresh(ps.topics.Values)
    ensures ps.Valid() && ps.Abstract() == AfterSetup()
  {
    // Each call may only change objects allocated here; the asserts carry that fact call by call.
    ps := new Registry.PubSub();
    ps.Subscribe("t0", "s0");
    assert fresh(ps.topics.Values);
    ps.Publish("t0", "aaa");
    assert fresh(ps.topics.Values);
    ps.Subscribe("t0", "s1");
    assert fresh(ps.topics.Values);
    ps.Publish("t0", "bbb");
    assert fresh(ps.topics.Values);
    ps.Subscribe("t1", "s0");
    assert fresh(ps.topics.Values);
    ps.Publish("t1", "ccc");
    assert fresh(ps.topics.Values);
    PollTestSetupState();
  }

  /**
   * `TestPoll` in pubsub_test.go run against the registry object: the setup, the
   * three polls, and the lengths of both lists at the end.
   */
  method PollTestRun() returns (r0: Registry.Result<seq<string>>, r1: Registry.Result<seq<string>>,
                                r2: Registry.Result<seq<string>>, left0: nat, left1: nat)
    ensures r0 == Registry.Ok(["aaa", "bbb"]) && r1 == Registry.Ok(["bbb"]) && r2 == Registry.Ok(["ccc"])
    ensures left0 == 0 && left1 == 0
  {
    var ps := PollTestSetupRun();
    PollTest();
    r0 := ps.Poll("t0", "s0");
    r1 := ps.Poll("t0", "s1");
    r2 := ps.Poll("t1", "s0");
    assert "t0" in ps.Abstract() && "t1" in ps.Abstract();
    left0 := |ps.topics["t0"].messages|;
    left1 := |ps.topics["t1"].messages|;
  }

  // ---------------------------------------------------------------------------
  // A lost message: the polls of `TestPoll` on "t0" in the other order

  /** Topic "t0" after "s1" polled it first: "bbb" is released and unlinked. */
  function T0AfterLaterPoll(): TopicState
  {
    TopicState(map["s0" := At(0), "s1" := Nil], [0], [Message("aaa", 1), Message("bbb", 0)])
  }

  /** Topic "t0" after "s0" polled it as well. */
  function T0AfterEarlierPoll(): TopicState
  {
    TopicState(map["s0" := Nil, "s1" := Nil], [], [Message("aaa", 0), Message("bbb", 0)])
  }

  /** "s1" polls "t0" right after the setup, before "s0". */
  lemma T0LaterPollFirst()
    ensures Linked(T0AfterSetup())
    ensures Polled(T0AfterSetup(), "s1") == (["bbb"], T0AfterLaterPoll())
  {
    var t := T0AfterSetup();
    assert Unread(t, 1) == ["bbb"];
    assert Released(t, 1).messages == [0];
    assert Released(t, 1).store == [Message("aaa", 1), Message("bbb", 0)];
    assert t.subscribers["s1" := Nil] == map["s0" := At(0), "s1" := Nil];
  }

  /** "s0" polls "t0" after "s1" did. */
  lemma T0EarlierPollSecond()
    ensures Linked(T0AfterLaterPoll())
    ensures Polled(T0AfterLaterPoll(), "s0") == (["aaa"], T0AfterEarlierPoll())
  {
    var t := T0AfterLaterPoll();
    assert Unread(t, 0) == ["aaa"];
    assert Released(t, 0).messages == [];
    assert Released(t, 0).store == [Message("aaa", 0), Message("bbb", 0)];
    assert t.subscribers["s0" := Nil] == map["s0" := Nil, "s1" := Nil];
  }

  /**
   * A lost message: "s0" subscribed before "bbb" was published and its cursor
   * lags behind it, but "s1" polls first, releases "bbb" and unlinks it, so
   * "s0" then reads only "aaa".
   */
  lemma LostMessage()
    ensures var m0 := AfterSetup();
      var m1 := m0["t0" := T0AfterLaterPoll()];
      var m2 := m1["t0" := T0AfterEarlierPoll()];
      && Registry.Linked(m0) && Registry.Linked(m1)
      && Registry.Polled(m0, "t0", "s1") == (Registry.Ok(["bbb"]), m1)
      && Registry.Polled(m1, "t0", "s0") == (Registry.Ok(["aaa"]), m2)
  {
    T0LaterPollFirst();
    T0EarlierPollSecond();
  }

  // ---------------------------------------------------------------------------
  // A leaked message

  /** One subscriber, then two publishes: the second finds no nil cursor. */
  function LeakSetup(): Registry.TopicMap
  {
    var m1 := Registry.Subscribed(map[], "t", "s0");
    var m2 := Registry.Published(m1, "t", "a");
    Registry.Published(m2, "t", "b")
  }

  /** The topic after the setup: "b" was counted by nobody. */
  function LeakTopic(): TopicState
  {
    TopicState(map["s0" := At(0)], [0, 1], [Message("a", 1), Message("b", 0)])
  }

  /** The topic after "s0" polled it: "b" stays in the list with a count of 0. */
  function LeakedTopic(): TopicState
  {
    TopicState(map["s0" := Nil], [1], [Message("a", 0), Message("b", 0)])
  }

  /** The registry after the setup. */
  function LeakStart(): Registry.TopicMap
  {
    map["t" := LeakTopic()]
  }

  /** The second publish of the setup finds no nil cursor, so it counts nobody. */
  lemma LeakSetupState()
    ensures LeakSetup() == LeakStart()
  {
    var m1 := Registry.Subscribed(map[], "t", "s0");
    assert m1 == map["t" := TopicState(map["s0" := Nil], [], [])];
    var p := Published(m1["t"], "a");
    assert NilCursors(map["s0" := Nil]) == {"s0"};
    assert p.subscribers == map["s0" := At(0)];
    assert p.messages == [0];
    assert p.store == [Message("a", 1)];
    var m2 := Registry.Published(m1, "t", "a");
    assert m2 == map["t" := TopicState(map["s0" := At(0)], [0], [Message("a", 1)])];
    var q := Published(m2["t"], "b");
    assert NilCursors(map["s0" := At(0)]) == {};
    assert q.subscribers == map["s0" := At(0)];
    assert q.messages == [0, 1];
    assert q.store == [Message("a", 1), Message("b", 0)];
  }

  /** "s0" polls "t" after the leak setup; the topic invariant still holds afterwards. */
  lemma LeakPoll()
    ensures Linked(LeakTopic())
    ensures Polled(LeakTopic(), "s0") == (["a", "b"], LeakedTopic())
    ensures Valid(LeakedTopic())
  {
    var t := LeakTopic();
    assert Unread(t, 0) == ["a", "b"];
    assert Released(t, 0).messages == [1];
    assert Released(t, 0).store == [Message("a", 0), Message("b", 0)];
    assert t.subscribers["s0" := Nil] == map["s0" := Nil];
    var r := LeakedTopic();
    forall id | 0 <= id < |r.store|
      ensures Counted(r, id)
    {
      assert RefsTo(r.subscribers, id) == {};
    }
  }

  /**
   * A leaked message: "b" is published while the only subscriber lags, so its
   * count is 0. After the subscriber reads it, "b" is still in the list, no
   * cursor points at it, and polling again changes nothing: nothing will
   * release it. The registry is still consistent.
   */
  lemma LeakedMessage()
    ensures var m0 := LeakStart();
      var m1 := m0["t" := LeakedTopic()];
      && Registry.Linked(m0)
      && Registry.Polled(m0, "t", "s0") == (Registry.Ok(["a", "b"]), m1)
      && Registry.Consistent(m1)
      && m1["t"].messages == [1] && m1["t"].store[1].subCount == 0
      && (forall s :: s in m1["t"].subscribers ==> m1["t"].subscribers[s] != At(1))
      && Registry.Polled(m1, "t", "s0") == (Registry.Ok([]), m1)
  {
    LeakPoll();
    var m1 := map["t" := LeakedTopic()];
    assert LeakStart()["t" := LeakedTopic()] == m1;
    assert Registry.Healthy(m1, "t");
    assert Registry.Consistent(m1);
    assert Registry.Polled(LeakStart(), "t", "s0") == (Registry.Ok(["a", "b"]), m1);
    assert m1["t" := LeakedTopic()] == m1;
  }
}
