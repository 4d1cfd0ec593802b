# pubsub: an in-memory publish/subscribe registry, modelled in Dafny

The Go package `pubsub` keeps a map from topic names to topics. Each topic has:

- one linked list of messages that all its subscribers share;
- one cursor per subscriber: nil when the subscriber has nothing unread, or the list element of its oldest unread message;
- a per-message `subCount`, the number of cursors counted as pointing at that message.

The four operations behave as follows:

- `Subscribe` creates the topic on first use and registers the subscriber with a nil cursor.
- `Publish` appends a message and points every nil cursor at it.
- `Poll` returns the texts from the subscriber's cursor to the tail, releases the starting message and resets the cursor.
- `Unsubscribe` releases the subscriber's message and deletes the topic when its last subscriber leaves.

A message is unlinked from the list when its count reaches 0.

The model has three modules:

- `Topics` (`topic.dfy`) holds one topic.
  - The value `TopicState` models the list as a sequence of element ids, and `store` holds each message by id.
  - The spec functions `Published`, `Released`, `Polled` and `Detached` define what each topic operation does.
  - The invariant `Valid` says the list is in publish order without duplicates, every non-nil cursor points into the list, and every count equals the number of cursors pointing at that element.
  - The class `Topic` has the Go fields, updated in place. Its methods `Publish` (a loop over the subscribers), `Poll` (a walk along the list), `ReleaseMsg` and `Leave` are each proved equal to their spec function.
- `Registry` (`pubsub.dfy`) holds the registry.
  - The functions `Subscribed`, `Unsubscribed`, `Published` and `Polled` work on a map of topic values. `Consistent` says every topic is `Valid` and has at least one subscriber.
  - The class `PubSub` holds a map of `Topic` objects. Each of its methods is proved to act on the map's value as its spec function does, and to keep the registry invariant.
- `Scenarios` (`scenarios.dfy`) replays concrete runs.
  - The run of `TestPoll` from the package's tests, both on the registry's value and as calls on a `PubSub` object.
  - A run where a message is leaked.
  - A run where a message is lost.

The code allows two behaviours, and the model allows them too:

- **Leaked message.** A message published while every cursor is non-nil gets a count of 0, so it is never unlinked.
- **Lost message.** A lagging subscriber can skip a message that another subscriber has already released and unlinked.

The model does not claim that lists always empty, or that every subscriber sees every later publish.

## Model

| member | source | states |
|---|---|---|
| Topics.IndexOf | pubsub/pubsub.go:228 | The position an element pointer stands for: the element is at that position and nowhere before it |
| Topics.Remove | pubsub/pubsub.go:253 | Defines `List.Remove` on the id sequence: drop the element, or change nothing when it is not in the list. `RemoveUnlinks` and `RemoveKeepsOthers` prove what it does |
| Topics.Published | pubsub/pubsub.go:202-220 | Defines `_topic.publish`: push a message at the tail, point every nil cursor at it, and count those cursors. `PublishedArmsNilCursors` and `PublishedValid` prove what it does |
| Topics.Released | pubsub/pubsub.go:244-256 | Defines `releaseMsg` on a non-nil element: lower the count, and unlink the element at 0. `ReleasedEffect` proves what it does |
| Topics.Polled | pubsub/pubsub.go:224-241 | Defines `_topic.poll` for a subscriber: the texts from its cursor to the tail; when there are any, release the cursor's element and reset the cursor. `PolledResult` and `PolledValid` prove what it does |
| Topics.Detached | pubsub/pubsub.go:117-122 | Defines what `Unsubscribe` does to a topic that has the subscriber: release its element if it has one, then delete its entry. `DetachedValid` proves what it does |
| Topics.RemoveUnlinks | pubsub/pubsub.go:252-254 | Unlinking an element removes exactly its position from the list; unlinking an element not in the list changes nothing |
| Topics.RemoveKeepsOthers | pubsub/pubsub.go:252-254 | Unlinking keeps the list in publish order, and removes that element and no other |
| Topics.JoinedValid | pubsub/pubsub.go:80 | Adding a new subscriber with a nil cursor keeps the topic invariant, so every count stays right |
| Topics.PublishedValid | pubsub/pubsub.go:202-220 | Publishing keeps the topic invariant: the new element's count equals the number of cursors now pointing at it |
| Topics.PublishedArmsNilCursors | pubsub/pubsub.go:202-220 | Publishing appends one new element at the tail with the given text. The cursors now pointing at it are exactly the ones that were nil, and its count is their number. Every non-nil cursor is unchanged, and no subscriber is added or removed |
| Topics.ArmingStep | pubsub/pubsub.go:212-219 | One pass of the publish loop arms subscriber k's cursor and adds one to the count exactly when k's cursor was nil, and changes nothing else |
| Topics.ArmingStart | pubsub/pubsub.go:209 | Before the loop visits anyone, the state is the old topic with the new message pushed at the tail, with a count of 0 |
| Topics.ArmingDone | pubsub/pubsub.go:212-219 | Once every subscriber has been visited, the loop's state is the full publish |
| Topics.ReleasedEffect | pubsub/pubsub.go:244-256 | Releasing a listed element lowers its count by one. The element leaves the list exactly when the count reaches 0. The list stays in order, and every other element and message is unchanged |
| Topics.ReleasedCursorValid | pubsub/pubsub.go:233-238 | Taking one subscriber's cursor off its element, by resetting it to nil or deleting the subscriber, and releasing that element keeps the topic invariant. In particular, no other cursor is left pointing at an unlinked element |
| Topics.PolledValid | pubsub/pubsub.go:224-241 | A poll keeps the topic invariant, and an immediate second poll returns nothing and changes nothing |
| Topics.PolledResult | pubsub/pubsub.go:224-241 | A poll returns nothing and changes nothing exactly when the cursor is nil. Otherwise its first text is the cursor's message and its last text is the tail's. Every subscriber stays, and the cursor is nil afterwards |
| Topics.DetachedValid | pubsub/pubsub.go:117-122 | Releasing a subscriber's element and deleting its entry keeps the topic invariant and removes exactly that subscriber |
| Topics.PublishedLinked | pubsub/pubsub.go:202-220 | A publish keeps every cursor pointing into the list and keeps the set of subscribers |
| Topics.PublishedAllLinked | pubsub/pubsub.go:202-220 | A run of publishes keeps every cursor pointing into the list and keeps the set of subscribers |
| Topics.UnreadAfterPush | pubsub/pubsub.go:228-231 | After a push, a walk from any listed element collects the same texts as before plus the new one at the end |
| Topics.LaggingReadsAll | pubsub/pubsub.go:228-231 | During a run of publishes with no poll or unsubscribe, a non-nil cursor stays put, and its unread texts grow by exactly the published texts, in order |
| Topics.CaughtUpReadsAll | pubsub/pubsub.go:214-217 | A subscriber whose cursor is nil before a run of publishes, with no poll or unsubscribe in between, then polls exactly those texts in publish order |
| Topics.Topic.constructor | pubsub/pubsub.go:64-67 | A new topic has no subscribers and an empty list |
| Topics.Topic.Publish | pubsub/pubsub.go:202-220 | The loop over the subscribers leaves the topic in the `Published` state |
| Topics.Topic.Poll | pubsub/pubsub.go:224-241 | The walk along the list returns the texts of `Polled` and leaves the topic in its state |
| Topics.Topic.Leave | pubsub/pubsub.go:117-122 | Releasing the subscriber's element if it has one, then deleting its entry, gives the `Detached` state |
| Topics.Topic.ReleaseMsg | pubsub/pubsub.go:244-256 | A nil element changes nothing; otherwise the topic ends in the `Released` state |
| Registry.Subscribed | pubsub/pubsub.go:58-83 | Defines `Subscribe` on the registry's value: create the topic if it is missing, then add the subscriber with a nil cursor unless it is already there. `SubscribedEffect` proves what it does |
| Registry.Unsubscribed | pubsub/pubsub.go:99-126 | Defines `Unsubscribe` on the value: no change for an unknown topic or subscriber; otherwise detach the subscriber, and delete the topic when no subscriber is left. `UnsubscribedEffect` proves what it does |
| Registry.Published | pubsub/pubsub.go:142-154 | Defines `Publish` on the value: no change for an unknown topic; otherwise the topic's publish. `PublishedEffect` proves what it does |
| Registry.Polled | pubsub/pubsub.go:170-189 | Defines `Poll` on the value: `SubNotFound` for an unknown topic or subscriber; otherwise the topic's poll. `PolledEffect` proves what it does |
| Registry.SubscribedEffect | pubsub/pubsub.go:58-83 | Afterwards the topic exists and has the subscriber. If it was already there, nothing changed. Otherwise the topic was created if missing, and the subscriber was added with a nil cursor. No other topic changed |
| Registry.SubscribedConsistent | pubsub/pubsub.go:58-83 | Subscribing keeps the registry consistent |
| Registry.SubscribedIdempotent | pubsub/pubsub.go:72-77 | Subscribing twice gives the same registry as subscribing once |
| Registry.UnsubscribedEffect | pubsub/pubsub.go:99-126 | An unknown topic or subscriber changes nothing. Otherwise the subscriber's element is released and only its entry is removed. The topic is deleted exactly when that was its last subscriber. Other topics are unchanged, and the registry stays consistent |
| Registry.PublishedEffect | pubsub/pubsub.go:142-154 | Publishing never creates a topic and does nothing for an unknown topic. It changes no other topic, and the registry stays consistent |
| Registry.PolledEffect | pubsub/pubsub.go:170-189 | The result is `SubNotFound` exactly when the topic or the subscriber is unknown, and then nothing changes. Otherwise the subscriber's cursor is nil afterwards. No other topic changes, and the registry stays consistent |
| Registry.UnsubscribedThenPollFails | pubsub/pubsub.go:180-185 | After a subscriber unsubscribes, polling it returns `SubNotFound` |
| Registry.PubSub.constructor | pubsub/pubsub.go:38-42 | `New` gives an empty, valid registry with no topic objects |
| Registry.PubSub.Subscribe | pubsub/pubsub.go:58-83 | The method keeps the registry invariant and changes the registry's value as `Subscribed` does. Every topic object it then holds is one it held before or a new one |
| Registry.PubSub.Unsubscribe | pubsub/pubsub.go:99-126 | The method keeps the registry invariant and changes the value as `Unsubscribed` does. Every topic object it then holds is one it held before |
| Registry.PubSub.Publish | pubsub/pubsub.go:142-154 | The method keeps the registry invariant and changes the value as `Published` does. It holds the same topic objects |
| Registry.PubSub.Poll | pubsub/pubsub.go:170-189 | The method keeps the registry invariant, and its result and the new value are those of `Polled`. It holds the same topic objects |
| Scenarios.PollTestFirstTopicState | pubsub/pubsub_test.go:93-98 | After the calls on "t0" in `TestPoll`, "s0" points at "aaa" and "s1" at "bbb", and each message has a count of 1 |
| Scenarios.PollTestSetupState | pubsub/pubsub_test.go:95-100 | The whole setup of `TestPoll` gives the two expected topics |
| Scenarios.PollTest | pubsub/pubsub_test.go:102-133 | The three polls of `TestPoll` return ["aaa","bbb"], ["bbb"] and ["ccc"], and leave both topics' lists empty |
| Scenarios.PollTestSetupRun | pubsub/pubsub_test.go:93-100 | The six setup calls of `TestPoll`, made on a new `PubSub` object, leave it valid and holding the two expected topics |
| Scenarios.PollTestRun | pubsub/pubsub_test.go:92-132 | `TestPoll` run on the `PubSub` object: the polls return ["aaa","bbb"], ["bbb"] and ["ccc"], and both lists have length 0 at the end |
| Scenarios.LostMessage | pubsub/pubsub.go:228-238 | If the same setup is polled by "s1" first, "bbb" is unlinked, and "s0" then reads only "aaa" |
| Scenarios.LeakSetupState | pubsub/pubsub.go:212-218 | A publish while the only cursor is non-nil gives the new message a count of 0 |
| Scenarios.LeakedMessage | pubsub/pubsub.go:249-254 | After the subscriber reads it, that message is still in the list and no cursor points at it. Polling again changes nothing, and the registry is still consistent |

## Left out

- The HTTP endpoint descriptions in the comments are documentation only.
- `container/list`'s pointers and links are not modelled. The list is a sequence of element ids, and a cursor holds an id, not a pointer. An element's position (`IndexOf`) stands in for following `Next` from it.
- Storage is not freed: `store` keeps the message of every element ever pushed, and unlinking removes the id from the list only. Garbage collection is not modelled.
- Map iteration order: the publish loop takes any remaining subscriber in each round, so the proof covers every order Go's `range` can produce.
- `ErrSubNotFound` is the datatype value `SubNotFound`; the error's text and identity are not modelled.
- Concurrency: the Go type has no locks, and the model treats every operation as atomic.
- `subCount` is an unbounded integer; Go's `int` overflow is out of reach for a count of subscribers.
- `Topics.Topic.Poll`: Go's `poll(e, subscriberName)` takes the cursor as an argument, and its only caller passes `subscribers[subscriberName]`. The model reads the cursor itself and takes only the name. It requires every cursor to point into the list, which the registry invariant maintains.
- `Topics.Topic.Leave` groups the two statements `PubSub.Unsubscribe` runs on the topic, so the registry's frame reasoning covers one call.
