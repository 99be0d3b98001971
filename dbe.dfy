/** The event engine of src/services/DBE.service.ts: creating an event card,
    recording who joins and leaves it, deleting it, reconciling it with the
    card's reactions after a restart, and registering a server's channel and
    language.

    The engine's collaborators (the event back end, the chat client) are
    modelled as state: the back end's records and its message-id index, the
    participant list each live card shows, the server configurations, and
    the trace of calls the engine made. What a collaborator answers (a write
    that succeeds or returns null, a channel that is not a text channel, an
    administrator flag, a fresh message id) is a parameter. Each operation is
    a function on a `World` value, and the class's methods change their
    fields step by step as the source does and are proved to reach the state
    that function gives. */
module Dbe {
  import opened Wrappers
  import opened Participants
  import Messages

  type EventId = string
  type MessageId = string
  type ChannelId = string
  type ServerId = string

  /** An event record as the back end stores it; `date` is the instant in
      milliseconds, None when the date text did not parse. */
  datatype Event = Event(
    id: EventId,
    serverID: ServerId,
    channelID: ChannelId,
    messageID: MessageId,
    authorID: UserId,
    title: string,
    description: string,
    date: Option<int>,
    image: string,
    participants: seq<UserId>)

  /** A server configuration: the channel the bot listens on and its language. */
  datatype ServerConfig = ServerConfig(id: string, serverID: ServerId, channelID: ChannelId, lang: string)

  /** The private messages the engine sends to a user. */
  datatype Notice = UnknownError | PastDate | BadRegex | BadLang | DeleteSuccess | ConfigCreated | ConfigUpdated

  /** The two reactions put under a new card: join and leave. */
  datatype Emoji = Accept | Decline

  /** One call the engine makes on a collaborator, with its outcome. */
  datatype Call =
    | PutParticipants(event: EventId, participants: seq<UserId>, ok: bool)
    | EditMessage(message: MessageId, shows: seq<UserId>)
    | DeleteRecord(record: EventId, deleted: bool)
    | DeleteMessage(deletedMessage: MessageId)
    | SendCard(card: MessageId)
    | PostEvent(posted: MessageId, created: bool)
    | React(reacted: MessageId, emoji: Emoji)
    | PutConfig(config: string, updated: bool)
    | PostConfig(server: ServerId, stored: bool)
    | Notify(user: UserId, notice: Notice)

  /** Everything the engine reads and writes. */
  datatype World = World(
    store: map<EventId, Event>,
    byMessage: map<MessageId, EventId>,
    shown: map<MessageId, seq<UserId>>,
    configs: seq<ServerConfig>,
    trace: seq<Call>)

  // ---------------------------------------------------------------------------
  // Consistency of a world
  // ---------------------------------------------------------------------------

  /** Records are stored under their own id, and the message index maps each
      card to the record that owns it and back. */
  ghost predicate Indexed(w: World)
  {
    (forall id | id in w.store ::
       w.store[id].id == id && w.store[id].messageID in w.byMessage && w.byMessage[w.store[id].messageID] == id)
    && (forall m | m in w.byMessage :: w.byMessage[m] in w.store && w.store[w.byMessage[m]].messageID == m)
  }

  /** Every live card belongs to a record (no orphan card), every record has
      its card, the card shows the record's participants, and no record
      lists a participant twice. */
  ghost predicate Rendered(w: World)
  {
    w.shown.Keys == w.byMessage.Keys
    && forall id | id in w.store ::
         NoDup(w.store[id].participants)
         && w.store[id].messageID in w.shown && w.shown[w.store[id].messageID] == w.store[id].participants
  }

  /** The call at position `i` is allowed by the one before it: a card is
      edited only right after a successful write of the participants it
      shows, and a card is deleted only right after a successful record
      delete, or right after the record for that card failed to be created.
      That the deleted record is the card's own is stated by DeleteOutcome,
      which sees the index the trace does not. */
  predicate Justified(t: seq<Call>, i: nat)
    requires i < |t|
  {
    match t[i]
    case EditMessage(_, shows) =>
      0 < i && t[i - 1].PutParticipants? && t[i - 1].ok && t[i - 1].participants == shows
    case DeleteMessage(m) =>
      0 < i && ((t[i - 1].DeleteRecord? && t[i - 1].deleted)
                || (t[i - 1].PostEvent? && !t[i - 1].created && t[i - 1].posted == m))
    case _ => true
  }

  /** The call at position `i` is followed as it must be: a card that was
      sent is posted as an event by the next call, and a card whose event
      failed to post is deleted by the next call. */
  predicate Followed(t: seq<Call>, i: nat)
    requires i < |t|
  {
    match t[i]
    case SendCard(c) => i + 1 < |t| && t[i + 1].PostEvent? && t[i + 1].posted == c
    case PostEvent(c, created) => created || (i + 1 < |t| && t[i + 1] == DeleteMessage(c))
    case _ => true
  }

  predicate Ordered(t: seq<Call>)
  {
    forall i | 0 <= i < |t| :: Justified(t, i) && Followed(t, i)
  }

  ghost predicate Consistent(w: World)
  {
    Indexed(w) && Rendered(w) && Ordered(w.trace)
  }

  /** Appending calls that are in order by themselves keeps a trace in order. */
  lemma OrderedAppend(t: seq<Call>, s: seq<Call>)
    requires Ordered(t) && Ordered(s)
    ensures Ordered(t + s)
  {
    var u := t + s;
    forall i | 0 <= i < |u| ensures Justified(u, i) && Followed(u, i) {
      if i < |t| {
        assert u[i] == t[i] && Justified(t, i) && Followed(t, i);
        if 0 < i { assert u[i - 1] == t[i - 1]; }
        if i + 1 < |t| { assert u[i + 1] == t[i + 1]; }
      } else {
        var j := i - |t|;
        assert u[i] == s[j] && Justified(s, j) && Followed(s, j);
        if 0 < j { assert u[i - 1] == s[j - 1]; }
        if j + 1 < |s| { assert u[i + 1] == s[j + 1]; }
      }
    }
  }

  /** The world after one record's participants became `p`, written to the
      record and shown on its card. */
  function Rewrite(w: World, id: EventId, p: seq<UserId>): World
    requires id in w.store
  {
    w.(store := w.store[id := w.store[id].(participants := p)], shown := w.shown[w.store[id].messageID := p])
  }

  /** The world after the engine made the calls `calls`. */
  function Log(w: World, calls: seq<Call>): World
  {
    w.(trace := w.trace + calls)
  }

  /** Writing a list without repeats to a record and its card keeps the
      records, the index and the cards in agreement. */
  lemma RewriteConsistent(w: World, id: EventId, p: seq<UserId>)
    requires Indexed(w) && Rendered(w) && id in w.store && NoDup(p)
    ensures Indexed(Rewrite(w, id, p)) && Rendered(Rewrite(w, id, p))
  {
    var r := Rewrite(w, id, p);
    var m := w.store[id].messageID;
    assert r.shown.Keys == w.shown.Keys;
    forall x | x in r.store
      ensures NoDup(r.store[x].participants) && r.store[x].messageID in r.shown
              && r.shown[r.store[x].messageID] == r.store[x].participants
    {
      if x != id {
        assert w.store[x].messageID != m;
      }
    }
  }

  /** Calls in order by themselves, made by a consistent engine, leave it
      consistent. */
  lemma LogConsistent(w: World, calls: seq<Call>)
    requires Consistent(w) && Ordered(calls)
    ensures Consistent(Log(w, calls))
  {
    OrderedAppend(w.trace, calls);
  }

  /** Every record of `w` is still in `v`, on the same card. */
  ghost predicate Keeps(w: World, v: World)
  {
    forall id | id in w.store :: id in v.store && v.store[id].messageID == w.store[id].messageID
  }

  // ---------------------------------------------------------------------------
  // Startup reconciliation: synchroniseParticipants and cacheAndSynchronise
  // ---------------------------------------------------------------------------

  /** The list written by the startup reconciliation: the reactors other than
      the bot, sorted (the source sorts that array in place before both the
      comparison and the write). */
  function Reactors(users: seq<UserId>, bot: UserId): (r: seq<UserId>)
    ensures Sorted(r)
    ensures multiset(r) == multiset(Without(users, bot))
    ensures NoDup(users) ==> NoDup(r)
  {
    SortSorted(Without(users, bot));
    assert NoDup(users) ==> NoDup(Sort(Without(users, bot))) by {
      if NoDup(users) { NoDupPermutation(Without(users, bot), Sort(Without(users, bot))); }
    }
    Sort(Without(users, bot))
  }

  /** synchroniseParticipants on the event snapshot `e`, whose card has the
      reactors `users`: when the sorted lists differ, write the reactors to
      the record, and only when that write succeeds edit the card. */
  function SyncOne(w: World, bot: UserId, e: Event, users: seq<UserId>, putOk: bool): (r: World)
    requires e.id in w.store && w.store[e.id].messageID == e.messageID
    ensures Keeps(w, r) && r.configs == w.configs
    ensures Reactors(users, bot) == Sort(e.participants) ==> r == w
    ensures !putOk ==> r.store == w.store && r.shown == w.shown
  {
    var now := Reactors(users, bot);
    if now == Sort(e.participants) then w
    else if !putOk then Log(w, [PutParticipants(e.id, now, false)])
    else Log(Rewrite(w, e.id, now), [PutParticipants(e.id, now, true), EditMessage(e.messageID, now)])
  }

  /** The reconciliation leaves the record and the card untouched exactly
      when the reactors (other than the bot) and the stored participants are
      the same multiset: the order does not matter, a repeat does. */
  lemma SyncOneChangesNothingIff(w: World, bot: UserId, e: Event, users: seq<UserId>, putOk: bool)
    requires e.id in w.store && w.store[e.id].messageID == e.messageID
    ensures SyncOne(w, bot, e, users, putOk) == w
            <==> multiset(Without(users, bot)) == multiset(e.participants)
  {
    var now := Reactors(users, bot);
    SortEqualIff(now, e.participants);
    SortSorted(now);
    SortedUnique(Sort(now), now);
    if now != Sort(e.participants) {
      assert |SyncOne(w, bot, e, users, putOk).trace| > |w.trace|;
    }
  }

  /** For distinct reactors and a record without repeats, the
      reconciliation changes nothing exactly when the reactors other than
      the bot are the stored participants, in whatever order. */
  lemma SyncOneChangesNothingSetIff(w: World, bot: UserId, e: Event, users: seq<UserId>, putOk: bool)
    requires e.id in w.store && w.store[e.id].messageID == e.messageID
    requires NoDup(users) && NoDup(e.participants)
    ensures SyncOne(w, bot, e, users, putOk) == w <==> forall u :: u in e.participants <==> u in users && u != bot
  {
    SyncOneChangesNothingIff(w, bot, e, users, putOk);
    NoDupMultisetIsSet(Without(users, bot), e.participants);
  }

  /** What the reconciliation does when the lists differ: after a
      successful write the record holds `now`, the sorted reactors, its card
      shows them, every other record and card is as before, and exactly one
      edit of that card, showing `now`, follows the write; after a failed
      write only the attempt is recorded. */
  lemma SyncOneOutcome(w: World, bot: UserId, e: Event, users: seq<UserId>, putOk: bool, now: seq<UserId>, r: World)
    requires e.id in w.store && w.store[e.id].messageID == e.messageID
    requires now == Reactors(users, bot) && now != Sort(e.participants) && r == SyncOne(w, bot, e, users, putOk)
    ensures r.byMessage == w.byMessage && r.configs == w.configs && r.store.Keys == w.store.Keys
    ensures putOk ==> r.store[e.id] == w.store[e.id].(participants := now)
    ensures putOk ==> forall id | id in w.store && id != e.id :: r.store[id] == w.store[id]
    ensures putOk ==> r.shown == w.shown[e.messageID := now]
    ensures putOk ==> r.trace == w.trace + [PutParticipants(e.id, now, true), EditMessage(e.messageID, now)]
    ensures !putOk ==> r.store == w.store && r.shown == w.shown && r.trace == w.trace + [PutParticipants(e.id, now, false)]
  {
  }

  /** The reconciliation keeps a consistent world consistent when the
      reactors are distinct (they are the keys of the chat client's reactor
      map). */
  lemma SyncOneConsistent(w: World, bot: UserId, e: Event, users: seq<UserId>, putOk: bool)
    requires Consistent(w) && e.id in w.store && w.store[e.id].messageID == e.messageID && NoDup(users)
    ensures Consistent(SyncOne(w, bot, e, users, putOk))
  {
    var now := Reactors(users, bot);
    if now != Sort(e.participants) {
      if putOk {
        WrittenConsistent(w, e.id, e.messageID, now);
      } else {
        QuietConsistent(w, SyncOne(w, bot, e, users, putOk), [PutParticipants(e.id, now, false)]);
      }
    }
  }

  /** What reading one card's reactions gives: a card outside a text channel,
      a card that cannot be fetched (the awaited fetch throws and ends the
      whole loop), or the ids of the users who reacted. */
  datatype Probe = NotText | Unreachable | Reacted(users: seq<UserId>)

  /** The snapshot events are records of the world, each naming its own card. */
  ghost predicate Snapshot(w: World, events: seq<Event>)
  {
    forall i | 0 <= i < |events| :: events[i].id in w.store && w.store[events[i].id].messageID == events[i].messageID
  }

  lemma SnapshotKept(w: World, v: World, events: seq<Event>, d: nat)
    requires Snapshot(w, events) && Keeps(w, v) && d <= |events|
    ensures Snapshot(v, events[d..])
  {
    forall i | 0 <= i < |events[d..]|
      ensures events[d..][i].id in v.store && v.store[events[d..][i].id].messageID == events[d..][i].messageID
    {
      assert events[d..][i] == events[d + i];
    }
  }

  lemma SnapshotPrefix(w: World, a: seq<Event>, b: seq<Event>)
    requires Snapshot(w, a + b)
    ensures Snapshot(w, a)
  {
    forall i | 0 <= i < |a| ensures a[i].id in w.store && w.store[a[i].id].messageID == a[i].messageID {
      assert (a + b)[i] == a[i];
    }
  }

  ghost predicate Distinct(probes: seq<Probe>)
  {
    forall i | 0 <= i < |probes| :: probes[i].Reacted? ==> NoDup(probes[i].users)
  }

  /** One turn of the loop of cacheAndSynchronise: a card outside a text
      channel gets no write and no edit. */
  function Visit(w: World, bot: UserId, e: Event, probe: Probe, putOk: bool): (r: World)
    requires e.id in w.store && w.store[e.id].messageID == e.messageID
    ensures Keeps(w, r) && r.configs == w.configs
    ensures !probe.Reacted? ==> r == w
  {
    if probe.Reacted? then SyncOne(w, bot, e, probe.users, putOk) else w
  }

  /** cacheAndSynchronise: the events in list order, one at a time; an
      unreachable card stops the loop. */
  ghost function SyncAll(w: World, bot: UserId, events: seq<Event>, probes: seq<Probe>, puts: seq<bool>): (r: World)
    requires |probes| == |events| == |puts| && Snapshot(w, events)
    ensures Keeps(w, r) && r.configs == w.configs
    decreases |events|
  {
    if events == [] || probes[0].Unreachable? then w
    else
      var v := Visit(w, bot, events[0], probes[0], puts[0]);
      SnapshotKept(w, v, events, 1);
      SyncAll(v, bot, events[1..], probes[1..], puts[1..])
  }

  /** One turn of the loop, seen from position `i` of the list. */
  lemma SyncAllUnfold(w: World, bot: UserId, events: seq<Event>, probes: seq<Probe>, puts: seq<bool>, i: nat)
    requires |probes| == |events| == |puts| && i < |events| && Snapshot(w, events[i..])
    ensures events[i].id in w.store && w.store[events[i].id].messageID == events[i].messageID
    ensures Snapshot(Visit(w, bot, events[i], probes[i], puts[i]), events[i + 1..])
    ensures SyncAll(w, bot, events[i..], probes[i..], puts[i..])
            == if probes[i].Unreachable? then w
               else SyncAll(Visit(w, bot, events[i], probes[i], puts[i]), bot, events[i + 1..], probes[i + 1..], puts[i + 1..])
  {
    assert events[i..][0] == events[i] && probes[i..][0] == probes[i] && puts[i..][0] == puts[i];
    assert events[i..][1..] == events[i + 1..] && probes[i..][1..] == probes[i + 1..] && puts[i..][1..] == puts[i + 1..];
    SnapshotKept(w, Visit(w, bot, events[i], probes[i], puts[i]), events[i..], 1);
  }

  /** The loop keeps a consistent world consistent. */
  lemma {:induction false} SyncAllConsistent(w: World, bot: UserId, events: seq<Event>, probes: seq<Probe>, puts: seq<bool>)
    requires |probes| == |events| == |puts| && Snapshot(w, events) && Distinct(probes) && Consistent(w)
    ensures Consistent(SyncAll(w, bot, events, probes, puts))
    decreases |events|
  {
    if events != [] && !probes[0].Unreachable? {
      assert Distinct(probes[1..]) by {
        forall i | 0 <= i < |probes[1..]| ensures probes[1..][i].Reacted? ==> NoDup(probes[1..][i].users) {
          assert probes[1..][i] == probes[i + 1];
        }
      }
      var v := Visit(w, bot, events[0], probes[0], puts[0]);
      if probes[0].Reacted? {
        SyncOneConsistent(w, bot, events[0], probes[0].users, puts[0]);
      }
      SnapshotKept(w, v, events, 1);
      SyncAllConsistent(v, bot, events[1..], probes[1..], puts[1..]);
    }
  }

  /** The loop works through the list in order: running it on `a` and then on
      `b` is running it on `a + b`, when no card of `a` is unreachable. */
  lemma {:induction false} SyncAllSequential(w: World, bot: UserId, a: seq<Event>, pa: seq<Probe>, ua: seq<bool>,
                                             b: seq<Event>, pb: seq<Probe>, ub: seq<bool>)
    requires |pa| == |a| == |ua| && |pb| == |b| == |ub| && Snapshot(w, a + b)
    requires forall i | 0 <= i < |pa| :: !pa[i].Unreachable?
    ensures Snapshot(w, a) && Snapshot(SyncAll(w, bot, a, pa, ua), b)
    ensures SyncAll(w, bot, a + b, pa + pb, ua + ub) == SyncAll(SyncAll(w, bot, a, pa, ua), bot, b, pb, ub)
    decreases |a|
  {
    SnapshotPrefix(w, a, b);
    SnapshotKept(w, SyncAll(w, bot, a, pa, ua), a + b, |a|);
    AppendParts(a, b);
    if a == [] {
      AppendParts(pa, pb);
      AppendParts(ua, ub);
    } else {
      AppendParts(pa, pb);
      AppendParts(ua, ub);
      var v := Visit(w, bot, a[0], pa[0], ua[0]);
      SnapshotKept(w, v, a + b, 1);
      forall i | 0 <= i < |pa[1..]| ensures !pa[1..][i].Unreachable? { assert pa[1..][i] == pa[i + 1]; }
      SyncAllSequential(v, bot, a[1..], pa[1..], ua[1..], b, pb, ub);
    }
  }

  /** How a concatenation splits: its first part, its rest, its head and
      its tail. */
  lemma AppendParts<T>(a: seq<T>, b: seq<T>)
    ensures (a + b)[|a|..] == b
    ensures a == [] ==> a + b == b
    ensures a != [] ==> (a + b)[0] == a[0] && (a + b)[1..] == a[1..] + b
  {
    if a != [] {
      assert (a + b)[1..] == a[1..] + b;
    }
  }

  // ---------------------------------------------------------------------------
  // Reactions: editParticipants
  // ---------------------------------------------------------------------------

  /** editParticipants on the card `m`: look the record up by its card, add or
      remove the user, write the list, and edit the card only after the
      write succeeds; a missing record or a failed write sends the user an
      error instead. */
  function Edit(w: World, m: MessageId, user: UserId, add: bool, putOk: bool): (r: World)
    requires Indexed(w)
    ensures Keeps(w, r) && r.configs == w.configs
    ensures (m !in w.byMessage || !putOk) ==> r.store == w.store && r.shown == w.shown
  {
    if m !in w.byMessage then Log(w, [Notify(user, UnknownError)])
    else
      var e := w.store[w.byMessage[m]];
      var now := Mutate(e.participants, user, add);
      if !putOk then Log(w, [PutParticipants(e.id, now, false), Notify(user, UnknownError)])
      else Log(Rewrite(w, e.id, now), [PutParticipants(e.id, now, true), EditMessage(m, now)])
  }

  /** A reaction keeps a consistent world consistent. */
  lemma EditConsistent(w: World, m: MessageId, user: UserId, add: bool, putOk: bool)
    requires Consistent(w)
    ensures Consistent(Edit(w, m, user, add, putOk))
  {
    if m !in w.byMessage {
      LogConsistent(w, [Notify(user, UnknownError)]);
    } else if !putOk {
      var e := w.store[w.byMessage[m]];
      EditFailedConsistent(w, e.id, Mutate(e.participants, user, add), user);
    } else {
      WrittenConsistent(w, w.byMessage[m], m, Mutate(w.store[w.byMessage[m]].participants, user, add));
    }
  }

  /** What a reaction does: a card without a record only gets the user an
      error; otherwise the record's list becomes `now` (the user added or
      removed), and after a successful write the card shows `now`, every
      other record and card is as before, and exactly one edit of that card
      follows the write; after a failed write the user gets an error and
      nothing else changes. */
  lemma EditOutcome(w: World, m: MessageId, user: UserId, add: bool, putOk: bool, now: seq<UserId>, r: World)
    requires Indexed(w) && r == Edit(w, m, user, add, putOk)
    requires m in w.byMessage ==> now == Mutate(w.store[w.byMessage[m]].participants, user, add)
    ensures r.byMessage == w.byMessage && r.configs == w.configs && r.store.Keys == w.store.Keys
    ensures m !in w.byMessage ==> r.store == w.store && r.shown == w.shown && r.trace == w.trace + [Notify(user, UnknownError)]
    ensures m in w.byMessage && putOk ==> r.store[w.byMessage[m]] == w.store[w.byMessage[m]].(participants := now)
    ensures m in w.byMessage && putOk ==> forall id | id in w.store && id != w.byMessage[m] :: r.store[id] == w.store[id]
    ensures m in w.byMessage && putOk ==> r.shown == w.shown[m := now]
    ensures m in w.byMessage && putOk ==> r.trace == w.trace + [PutParticipants(w.byMessage[m], now, true), EditMessage(m, now)]
    ensures m in w.byMessage && !putOk ==> r.store == w.store && r.shown == w.shown
    ensures m in w.byMessage && !putOk ==> r.trace == w.trace + [PutParticipants(w.byMessage[m], now, false), Notify(user, UnknownError)]
  {
  }

  lemma EditFailedConsistent(w: World, id: EventId, now: seq<UserId>, user: UserId)
    requires Consistent(w)
    ensures Consistent(Log(w, [PutParticipants(id, now, false), Notify(user, UnknownError)]))
  {
    LogConsistent(w, [PutParticipants(id, now, false), Notify(user, UnknownError)]);
  }

  /** Writing a list without repeats to a record and then editing the
      record's card to show it keeps a consistent world consistent. */
  lemma WrittenConsistent(w: World, id: EventId, m: MessageId, now: seq<UserId>)
    requires Consistent(w) && id in w.store && w.store[id].messageID == m && NoDup(now)
    ensures Consistent(Log(Rewrite(w, id, now), [PutParticipants(id, now, true), EditMessage(m, now)]))
  {
    var calls := [PutParticipants(id, now, true), EditMessage(m, now)];
    assert Justified(calls, 1);
    RewriteConsistent(w, id, now);
    LogConsistent(Rewrite(w, id, now), calls);
  }

  /** Joining twice is joining once: the second reaction writes the list the
      first one left. */
  lemma JoinTwice(w: World, m: MessageId, user: UserId)
    requires Consistent(w) && m in w.byMessage
    ensures Consistent(Edit(w, m, user, true, true))
    ensures Edit(Edit(w, m, user, true, true), m, user, true, true).store == Edit(w, m, user, true, true).store
  {
    EditConsistent(w, m, user, true, true);
    var id := w.byMessage[m];
    AddIdempotent(w.store[id].participants, user);
  }

  /** Leaving twice is not leaving once: on a record with at least two
      participants, the second reaction finds the user gone and removes the
      last remaining participant. */
  lemma LeaveTwice(w: World, m: MessageId, user: UserId)
    requires Consistent(w) && m in w.byMessage
    requires user in w.store[w.byMessage[m]].participants && |w.store[w.byMessage[m]].participants| >= 2
    ensures Consistent(Edit(w, m, user, false, true))
    ensures Edit(Edit(w, m, user, false, true), m, user, false, true).store
         != Edit(w, m, user, false, true).store
  {
    var id := w.byMessage[m];
    EditConsistent(w, m, user, false, true);
    RemoveTwiceDropsAnother(w.store[id].participants, user);
    var once := Edit(w, m, user, false, true);
    assert once.store[id].participants == Mutate(w.store[id].participants, user, false);
    var twice := Edit(once, m, user, false, true);
    assert twice.store[id].participants == Mutate(once.store[id].participants, user, false);
  }

  // ---------------------------------------------------------------------------
  // deleteEvent
  // ---------------------------------------------------------------------------

  /** The world without the record `id` and its card. */
  function Remove(w: World, id: EventId): World
    requires id in w.store
  {
    var m := w.store[id].messageID;
    w.(store := w.store - {id}, byMessage := w.byMessage - {m}, shown := w.shown - {m})
  }

  /** Removing a record together with its card keeps the records, the index
      and the cards in agreement. */
  lemma RemoveConsistent(w: World, id: EventId)
    requires Indexed(w) && Rendered(w) && id in w.store
    ensures Indexed(Remove(w, id)) && Rendered(Remove(w, id))
  {
    var r := Remove(w, id);
    var m := w.store[id].messageID;
    forall x | x in r.store
      ensures r.store[x].id == x && r.store[x].messageID in r.byMessage && r.byMessage[r.store[x].messageID] == x
    {
      assert w.store[x].messageID != m;
    }
  }

  /** deleteEvent on the card `m`: only the author or an administrator may
      delete; the record goes first, and the card is deleted only after the
      record delete succeeded. A user without the right gets no answer at
      all. */
  function Delete(w: World, m: MessageId, user: UserId, isAdmin: bool, deleteOk: bool): (r: World)
    requires Indexed(w)
    ensures r.configs == w.configs
    ensures m in w.byMessage && user != w.store[w.byMessage[m]].authorID && !isAdmin ==> r == w
    ensures r.store.Keys <= w.store.Keys
    ensures r.store != w.store <==>
              m in w.byMessage && (user == w.store[w.byMessage[m]].authorID || isAdmin) && deleteOk
  {
    if m !in w.byMessage then Log(w, [Notify(user, UnknownError)])
    else
      var e := w.store[w.byMessage[m]];
      if !(user == e.authorID || isAdmin) then w
      else if !deleteOk then Log(w, [DeleteRecord(e.id, false), Notify(user, UnknownError)])
      else
        assert e.id !in Remove(w, e.id).store;
        Log(Remove(w, e.id), [DeleteRecord(e.id, true), DeleteMessage(m), Notify(user, DeleteSuccess)])
  }

  /** A delete keeps a consistent world consistent: no record loses its card
      and no card outlives its record. */
  lemma DeleteConsistent(w: World, m: MessageId, user: UserId, isAdmin: bool, deleteOk: bool)
    requires Consistent(w)
    ensures Consistent(Delete(w, m, user, isAdmin, deleteOk))
  {
    if m !in w.byMessage {
      LogConsistent(w, [Notify(user, UnknownError)]);
    } else {
      var e := w.store[w.byMessage[m]];
      if user == e.authorID || isAdmin {
        if !deleteOk {
          LogConsistent(w, [DeleteRecord(e.id, false), Notify(user, UnknownError)]);
        } else {
          var calls := [DeleteRecord(e.id, true), DeleteMessage(m), Notify(user, DeleteSuccess)];
          assert Justified(calls, 1);
          RemoveConsistent(w, e.id);
          LogConsistent(Remove(w, e.id), calls);
        }
      }
    }
  }

  /** What deleting the card `m` writes. Without a record for the card, the
      user is told of an error and nothing else happens. A permitted delete
      the back end refuses logs the refused delete of the card's record and
      the error notice and changes nothing else. A permitted delete the back
      end accepts removes exactly the card's record, the card's index entry
      and the card, logs the delete of that record, then of that card, then
      the notice, and keeps the configurations. */
  lemma DeleteOutcome(w: World, m: MessageId, user: UserId, isAdmin: bool, deleteOk: bool, r: World)
    requires Indexed(w) && r == Delete(w, m, user, isAdmin, deleteOk)
    ensures m !in w.byMessage ==> r == w.(trace := w.trace + [Notify(user, UnknownError)])
    ensures m in w.byMessage && user != w.store[w.byMessage[m]].authorID && !isAdmin ==> r == w
    ensures m in w.byMessage && (user == w.store[w.byMessage[m]].authorID || isAdmin) && !deleteOk ==>
              r == w.(trace := w.trace + [DeleteRecord(w.byMessage[m], false), Notify(user, UnknownError)])
    ensures m in w.byMessage && (user == w.store[w.byMessage[m]].authorID || isAdmin) && deleteOk ==>
              r.store == w.store - {w.byMessage[m]} && r.byMessage == w.byMessage - {m} && r.shown == w.shown - {m}
    ensures m in w.byMessage && (user == w.store[w.byMessage[m]].authorID || isAdmin) && deleteOk ==>
              r.configs == w.configs
              && r.trace == w.trace + [DeleteRecord(w.byMessage[m], true), DeleteMessage(m), Notify(user, DeleteSuccess)]
  {
  }

  // ---------------------------------------------------------------------------
  // newCommand, after the command text was parsed
  // ---------------------------------------------------------------------------

  /** The fields the command's pattern extracts: the event's title and
      description, the instant its day and time denote (None when they do not
      form a valid date) and the text left over for the picture. */
  datatype Parsed = Parsed(title: string, description: string, instant: Option<int>, image: string)

  /** The past-date rejection: the instant minus now, in milliseconds, is at
      most 0. An invalid date gives NaN, and NaN <= 0 is false, so it is not
      rejected. */
  function InPast(instant: Option<int>, now: int): (r: bool)
    ensures instant.None? ==> !r
    ensures instant.Some? ==> (r <==> instant.value <= now)
  {
    instant.Some? && instant.value - now <= 0
  }

  /** The world with a new record `e` and its card. */
  function Add(w: World, e: Event): World
  {
    w.(store := w.store[e.id := e], byMessage := w.byMessage[e.messageID := e.id], shown := w.shown[e.messageID := e.participants])
  }

  /** Adding a record under a new id, on a new card, keeps the records, the
      index and the cards in agreement. */
  lemma AddConsistent(w: World, e: Event)
    requires Indexed(w) && Rendered(w) && e.id !in w.store && e.messageID !in w.shown && NoDup(e.participants)
    ensures Indexed(Add(w, e)) && Rendered(Add(w, e))
  {
    AddIndexed(w, e);
    AddRendered(w, e);
  }

  lemma AddIndexed(w: World, e: Event)
    requires Indexed(w) && Rendered(w) && e.id !in w.store && e.messageID !in w.shown
    ensures Indexed(Add(w, e))
  {
    var r := Add(w, e);
    assert e.messageID !in w.byMessage;
    forall x | x in r.store
      ensures r.store[x].id == x && r.store[x].messageID in r.byMessage && r.byMessage[r.store[x].messageID] == x
    {
      if x != e.id { assert w.store[x].messageID != e.messageID; }
    }
  }

  lemma AddRendered(w: World, e: Event)
    requires Indexed(w) && Rendered(w) && e.id !in w.store && e.messageID !in w.shown && NoDup(e.participants)
    ensures Rendered(Add(w, e))
  {
  }

  /** newCommand once the command was matched: reject a date in the past
      before anything is sent; otherwise send the card `card`, post the
      record, and either put the two reactions under the card (record `post`
      created) or delete the card again and tell the author. */
  function New(w: World, author: UserId, server: ServerId, channel: ChannelId, parsed: Option<Parsed>,
               now: int, card: MessageId, post: Option<EventId>): (r: World)
    ensures r.configs == w.configs
    ensures (parsed.None? || InPast(parsed.value.instant, now)) ==>
              r == Log(w, [Notify(author, if parsed.None? then BadRegex else PastDate)])
    ensures post.None? ==> r.store == w.store && r.shown == w.shown && r.byMessage == w.byMessage
  {
    if parsed.None? then Log(w, [Notify(author, BadRegex)])
    else if InPast(parsed.value.instant, now) then Log(w, [Notify(author, PastDate)])
    else
      var p := parsed.value;
      if post.Some? then
        Log(Add(w, Event(post.value, server, channel, card, author, p.title, p.description, p.instant, p.image, [])),
            [SendCard(card), PostEvent(card, true), React(card, Accept), React(card, Decline)])
      else
        Log(w, [SendCard(card), PostEvent(card, false), DeleteMessage(card), Notify(author, UnknownError)])
  }

  /** Creating an event keeps a consistent world consistent when the chat
      client gives the card a new message id and the back end gives the
      record a new event id; a failed post leaves no orphan card. */
  lemma NewConsistent(w: World, author: UserId, server: ServerId, channel: ChannelId, parsed: Option<Parsed>,
                      now: int, card: MessageId, post: Option<EventId>)
    requires Consistent(w) && card !in w.shown && (post.Some? ==> post.value !in w.store)
    ensures Consistent(New(w, author, server, channel, parsed, now, card, post))
  {
    if parsed.None? {
      LogConsistent(w, [Notify(author, BadRegex)]);
    } else if InPast(parsed.value.instant, now) {
      LogConsistent(w, [Notify(author, PastDate)]);
    } else if post.Some? {
      var p := parsed.value;
      var e := Event(post.value, server, channel, card, author, p.title, p.description, p.instant, p.image, []);
      AddConsistent(w, e);
      LogConsistent(Add(w, e), [SendCard(card), PostEvent(card, true), React(card, Accept), React(card, Decline)]);
    } else {
      var calls := [SendCard(card), PostEvent(card, false), DeleteMessage(card), Notify(author, UnknownError)];
      assert Justified(calls, 2);
      LogConsistent(w, calls);
    }
  }

  /** What creating an event does once the command parsed and the date is
      not past: when the back end creates the record under `post`, the
      record holds the author, the parsed fields and no participants, the
      card indexes it and shows nobody, and the join and leave reactions go
      under the card; when it does not, the card is deleted right after the
      failed post and the author is told. */
  lemma NewOutcome(w: World, author: UserId, server: ServerId, channel: ChannelId, parsed: Option<Parsed>,
                   now: int, card: MessageId, post: Option<EventId>, r: World)
    requires r == New(w, author, server, channel, parsed, now, card, post)
    requires parsed.Some? && !InPast(parsed.value.instant, now)
    ensures post.Some? ==> r.store == w.store[post.value := Event(post.value, server, channel, card, author,
                                                                    parsed.value.title, parsed.value.description,
                                                                    parsed.value.instant, parsed.value.image, [])]
    ensures post.Some? ==> r.byMessage == w.byMessage[card := post.value] && r.shown == w.shown[card := []]
    ensures post.Some? ==> r.trace == w.trace + [SendCard(card), PostEvent(card, true), React(card, Accept), React(card, Decline)]
    ensures post.None? ==> r.store == w.store && r.byMessage == w.byMessage && r.shown == w.shown
    ensures post.None? ==> r.trace == w.trace + [SendCard(card), PostEvent(card, false), DeleteMessage(card), Notify(author, UnknownError)]
  {
  }

  // ---------------------------------------------------------------------------
  // initCommand
  // ---------------------------------------------------------------------------

  /** The position of the last configuration of `server`: the forEach in
      initCommand does not stop at a match, so a later match overwrites an
      earlier one. */
  function LastRegistered(configs: seq<ServerConfig>, server: ServerId): (r: Option<nat>)
    ensures r.None? <==> forall i | 0 <= i < |configs| :: configs[i].serverID != server
    ensures r.Some? ==> r.value < |configs| && configs[r.value].serverID == server
                        && forall j | r.value < j < |configs| :: configs[j].serverID != server
  {
    if configs == [] then None
    else if configs[|configs| - 1].serverID == server then Some(|configs| - 1)
    else
      var k := LastRegistered(configs[..|configs| - 1], server);
      assert forall i | 0 <= i < |configs| - 1 :: configs[..|configs| - 1][i] == configs[i];
      k
  }

  /** The value of `isRegistered` after the forEach: the id of the last
      configuration of `server`, or null. */
  function Registration(configs: seq<ServerConfig>, server: ServerId): Option<string>
  {
    match LastRegistered(configs, server)
    case None => None
    case Some(k) => Some(configs[k].id)
  }

  /** What the back end does on putServerConfig: every configuration with
      that id moves to the channel and the language. */
  function Reassigned(configs: seq<ServerConfig>, id: string, channel: ChannelId, lang: string): (r: seq<ServerConfig>)
    ensures |r| == |configs|
    ensures forall i | 0 <= i < |r| ::
              r[i] == if configs[i].id == id then configs[i].(channelID := channel, lang := lang) else configs[i]
  {
    if configs == [] then []
    else
      [if configs[0].id == id then configs[0].(channelID := channel, lang := lang) else configs[0]]
      + Reassigned(configs[1..], id, channel, lang)
  }

  /** initCommand: the language is the command without its first "init "; an
      unknown language is refused; otherwise the server's configuration is
      updated when one with a truthy id exists and created otherwise, and the
      author hears whether the back-end write succeeded. */
  function Init(w: World, languages: set<string>, author: UserId, server: ServerId, channel: ChannelId,
                command: string, ok: bool, newId: string): (r: World)
    ensures r.store == w.store && r.byMessage == w.byMessage && r.shown == w.shown
    ensures Messages.ReplaceFirst(command, "init ", "") !in languages || !ok ==> r.configs == w.configs
  {
    var lang := Messages.ReplaceFirst(command, "init ", "");
    if lang !in languages then Log(w, [Notify(author, BadLang)])
    else
      var registered := Registration(w.configs, server);
      if registered.Some? && registered.value != "" then
        Log(w.(configs := if ok then Reassigned(w.configs, registered.value, channel, lang) else w.configs),
            [PutConfig(registered.value, ok), Notify(author, if ok then ConfigUpdated else UnknownError)])
      else
        Log(w.(configs := if ok then w.configs + [ServerConfig(newId, server, channel, lang)] else w.configs),
            [PostConfig(server, ok), Notify(author, if ok then ConfigCreated else UnknownError)])
  }

  /** The server's last configuration, the one a registration finds, puts
      the bot on `channel` in `lang`. */
  predicate RegisteredOn(configs: seq<ServerConfig>, server: ServerId, channel: ChannelId, lang: string)
  {
    match LastRegistered(configs, server)
    case None => false
    case Some(k) => configs[k].channelID == channel && configs[k].lang == lang
  }

  /** Changing configurations without moving any to another server does not
      change which one is the server's last. */
  lemma LastRegisteredSameServers(a: seq<ServerConfig>, b: seq<ServerConfig>, server: ServerId)
    requires |a| == |b| && forall i | 0 <= i < |a| :: a[i].serverID == b[i].serverID
    ensures LastRegistered(a, server) == LastRegistered(b, server)
  {
  }

  /** After a successful registration the server's last configuration names
      the channel and the language, whether it was updated or created. */
  lemma InitRegisters(w: World, languages: set<string>, author: UserId, server: ServerId, channel: ChannelId,
                      command: string, newId: string)
    requires Messages.ReplaceFirst(command, "init ", "") in languages
    ensures RegisteredOn(Init(w, languages, author, server, channel, command, true, newId).configs,
                         server, channel, Messages.ReplaceFirst(command, "init ", ""))
  {
    var lang := Messages.ReplaceFirst(command, "init ", "");
    var r := Init(w, languages, author, server, channel, command, true, newId);
    var registered := Registration(w.configs, server);
    if registered.Some? && registered.value != "" {
      var c := Reassigned(w.configs, registered.value, channel, lang);
      assert r.configs == c;
      LastRegisteredSameServers(w.configs, c, server);
    } else {
      var c := w.configs + [ServerConfig(newId, server, channel, lang)];
      assert r.configs == c;
      assert LastRegistered(c, server) == Some(|w.configs|);
    }
  }

  /** What a registration writes, `lang` being the command without its
      first "init ". An unknown language only tells the author. A server
      whose last configuration has a truthy id `id` is updated through
      putServerConfig: on success every configuration keeps its place, the
      ones with another id are untouched and no configuration is added; on
      failure nothing changes. Any other server gets a new configuration
      through postServerConfig, appended after the existing ones on success.
      Records and cards are never touched. */
  lemma InitOutcome(w: World, languages: set<string>, author: UserId, server: ServerId, channel: ChannelId,
                    command: string, ok: bool, newId: string, lang: string, r: World)
    requires lang == Messages.ReplaceFirst(command, "init ", "")
    requires r == Init(w, languages, author, server, channel, command, ok, newId)
    ensures r.store == w.store && r.byMessage == w.byMessage && r.shown == w.shown
    ensures lang !in languages ==> r == w.(trace := w.trace + [Notify(author, BadLang)])
    ensures lang in languages && Registration(w.configs, server).Some? && Registration(w.configs, server).value != "" ==>
              var id := Registration(w.configs, server).value;
              r.configs == (if ok then Reassigned(w.configs, id, channel, lang) else w.configs)
              && |r.configs| == |w.configs|
              && (forall i | 0 <= i < |w.configs| && w.configs[i].id != id :: r.configs[i] == w.configs[i])
              && r.trace == w.trace + [PutConfig(id, ok), Notify(author, if ok then ConfigUpdated else UnknownError)]
    ensures lang in languages && !(Registration(w.configs, server).Some? && Registration(w.configs, server).value != "") ==>
              r.configs == (if ok then w.configs + [ServerConfig(newId, server, channel, lang)] else w.configs)
              && r.configs[..|w.configs|] == w.configs
              && r.trace == w.trace + [PostConfig(server, ok), Notify(author, if ok then ConfigCreated else UnknownError)]
  {
  }

  /** A registration keeps a consistent world consistent. */
  lemma InitConsistent(w: World, languages: set<string>, author: UserId, server: ServerId, channel: ChannelId,
                       command: string, ok: bool, newId: string)
    requires Consistent(w)
    ensures Consistent(Init(w, languages, author, server, channel, command, ok, newId))
  {
    var r := Init(w, languages, author, server, channel, command, ok, newId);
    var lang := Messages.ReplaceFirst(command, "init ", "");
    if lang !in languages {
      QuietConsistent(w, r, [Notify(author, BadLang)]);
    } else {
      var registered := Registration(w.configs, server);
      if registered.Some? && registered.value != "" {
        QuietConsistent(w, r, [PutConfig(registered.value, ok), Notify(author, if ok then ConfigUpdated else UnknownError)]);
      } else {
        QuietConsistent(w, r, [PostConfig(server, ok), Notify(author, if ok then ConfigCreated else UnknownError)]);
      }
    }
  }

  /** Calls that neither edit, delete, send nor post a card. */
  predicate Quiet(calls: seq<Call>)
  {
    forall i | 0 <= i < |calls| ::
      calls[i].PutParticipants? || calls[i].PutConfig? || calls[i].PostConfig? || calls[i].Notify?
  }

  /** Calls that touch no card keep a consistent world consistent, whatever
      they do to the configurations, as long as the records and cards stay
      as they were. */
  lemma QuietConsistent(w: World, r: World, calls: seq<Call>)
    requires Consistent(w) && Quiet(calls)
    requires r.store == w.store && r.byMessage == w.byMessage && r.shown == w.shown && r.trace == w.trace + calls
    ensures Consistent(r)
  {
    assert forall i | 0 <= i < |calls| :: Justified(calls, i) && Followed(calls, i);
    OrderedAppend(w.trace, calls);
  }

  // ---------------------------------------------------------------------------
  // The engine
  // ---------------------------------------------------------------------------

  /** The engine with its collaborators' state. `botId` is the bot's own user
      id and `languages` the languages it has strings for. */
  class DbeService {
    const botId: UserId
    const languages: set<string>
    var store: map<EventId, Event>
    var byMessage: map<MessageId, EventId>
    var shown: map<MessageId, seq<UserId>>
    var configs: seq<ServerConfig>
    var trace: seq<Call>

    function State(): World
      reads this
    {
      World(store, byMessage, shown, configs, trace)
    }

    ghost predicate Valid()
      reads this
    {
      Consistent(State())
    }

    constructor (botId: UserId, languages: set<string>, start: World)
      requires Consistent(start)
      ensures Valid() && State() == start && this.botId == botId && this.languages == languages
    {
      this.botId := botId;
      this.languages := languages;
      store, byMessage, shown, configs, trace := start.store, start.byMessage, start.shown, start.configs, start.trace;
    }

    /** formatUsersFormCompare: walk the reactor ids and keep every one but
        the bot's own. */
    method FormatUsersForCompare(users: seq<UserId>) returns (usersArray: seq<UserId>)
      ensures usersArray == Without(users, botId)
    {
      usersArray := [];
      for i := 0 to |users|
        invariant usersArray == Without(users[..i], botId)
      {
        assert users[..i + 1][..i] == users[..i];
        if users[i] != botId {
          usersArray := usersArray + [users[i]];
        }
      }
      assert users[..|users|] == users;
    }

    /** synchroniseParticipants. */
    method SynchroniseParticipants(event: Event, users: seq<UserId>, putOk: bool)
      requires Valid() && event.id in store && store[event.id].messageID == event.messageID && NoDup(users)
      modifies this
      ensures Valid() && State() == SyncOne(old(State()), botId, event, users, putOk)
    {
      ghost var w := State();
      var usersArray := FormatUsersForCompare(users);
      usersArray := Sort(usersArray);
      if usersArray != Sort(event.participants) {
        if !putOk {
          trace := trace + [PutParticipants(event.id, usersArray, false)];
        } else {
          store := store[event.id := store[event.id].(participants := usersArray)];
          shown := shown[event.messageID := usersArray];
          trace := trace + [PutParticipants(event.id, usersArray, true), EditMessage(event.messageID, usersArray)];
        }
      }
      assert State() == SyncOne(w, botId, event, users, putOk);
      SyncOneConsistent(w, botId, event, users, putOk);
    }

    /** cacheAndSynchronise over the events read at startup. */
    method CacheAndSynchronise(events: seq<Event>, probes: seq<Probe>, puts: seq<bool>)
      requires Valid() && |probes| == |events| == |puts| && Snapshot(State(), events) && Distinct(probes)
      modifies this
      ensures Valid() && State() == SyncAll(old(State()), botId, events, probes, puts)
    {
      ghost var w := State();
      for i := 0 to |events|
        invariant Valid() && Snapshot(State(), events[i..])
        invariant SyncAll(w, botId, events, probes, puts) == SyncAll(State(), botId, events[i..], probes[i..], puts[i..])
      {
        ghost var before := State();
        SyncAllUnfold(before, botId, events, probes, puts, i);
        if probes[i].Unreachable? {
          return;
        }
        if probes[i].Reacted? {
          SynchroniseParticipants(events[i], probes[i].users, puts[i]);
        }
      }
    }

    /** editParticipants. */
    method EditParticipants(m: MessageId, user: UserId, add: bool, putOk: bool)
      requires Valid()
      modifies this
      ensures Valid() && State() == Edit(old(State()), m, user, add, putOk)
    {
      ghost var w := State();
      if m !in byMessage {
        trace := trace + [Notify(user, UnknownError)];
      } else {
        var event := store[byMessage[m]];
        var participants := event.participants;
        if add {
          participants := participants + [user];
        } else {
          var index := IndexOf(participants, user);
          participants := Splice1(participants, index);
        }
        participants := Dedup(participants);
        assert participants == Mutate(event.participants, user, add);
        if !putOk {
          trace := trace + [PutParticipants(event.id, participants, false), Notify(user, UnknownError)];
        } else {
          store := store[event.id := event.(participants := participants)];
          shown := shown[m := participants];
          trace := trace + [PutParticipants(event.id, participants, true), EditMessage(m, participants)];
        }
      }
      assert State() == Edit(w, m, user, add, putOk);
      EditConsistent(w, m, user, add, putOk);
    }

    /** deleteEvent. */
    method DeleteEvent(m: MessageId, user: UserId, isAdmin: bool, deleteOk: bool)
      requires Valid()
      modifies this
      ensures Valid() && State() == Delete(old(State()), m, user, isAdmin, deleteOk)
    {
      ghost var w := State();
      if m !in byMessage {
        trace := trace + [Notify(user, UnknownError)];
      } else {
        var event := store[byMessage[m]];
        if user == event.authorID || isAdmin {
          if !deleteOk {
            trace := trace + [DeleteRecord(event.id, false), Notify(user, UnknownError)];
          } else {
            store := store - {event.id};
            byMessage := byMessage - {m};
            shown := shown - {m};
            trace := trace + [DeleteRecord(event.id, true), DeleteMessage(m), Notify(user, DeleteSuccess)];
          }
        }
      }
      assert State() == Delete(w, m, user, isAdmin, deleteOk);
      DeleteConsistent(w, m, user, isAdmin, deleteOk);
    }

    /** newCommand after the pattern match. */
    method NewCommand(author: UserId, server: ServerId, channel: ChannelId, parsed: Option<Parsed>,
                      now: int, card: MessageId, post: Option<EventId>)
      requires Valid() && card !in shown && (post.Some? ==> post.value !in store)
      modifies this
      ensures Valid() && State() == New(old(State()), author, server, channel, parsed, now, card, post)
    {
      ghost var w := State();
      if parsed.None? {
        trace := trace + [Notify(author, BadRegex)];
      } else if InPast(parsed.value.instant, now) {
        trace := trace + [Notify(author, PastDate)];
      } else {
        var p := parsed.value;
        if post.Some? {
          var event := Event(post.value, server, channel, card, author, p.title, p.description, p.instant, p.image, []);
          store := store[event.id := event];
          byMessage := byMessage[card := event.id];
          shown := shown[card := []];
          trace := trace + [SendCard(card), PostEvent(card, true), React(card, Accept), React(card, Decline)];
        } else {
          trace := trace + [SendCard(card), PostEvent(card, false), DeleteMessage(card), Notify(author, UnknownError)];
        }
      }
      assert State() == New(w, author, server, channel, parsed, now, card, post);
      NewConsistent(w, author, server, channel, parsed, now, card, post);
    }

    /** The forEach of initCommand that looks for the server's configuration:
        it keeps the id of the last match. */
    method FindRegistration(server: ServerId) returns (isRegistered: Option<string>)
      ensures isRegistered == Registration(configs, server)
    {
      isRegistered := None;
      ghost var at: nat := 0;
      for i := 0 to |configs|
        invariant isRegistered.None? <==> forall k | 0 <= k < i :: configs[k].serverID != server
        invariant isRegistered.Some? ==>
                    at < i && configs[at].serverID == server && isRegistered.value == configs[at].id
                    && forall j | at < j < i :: configs[j].serverID != server
      {
        if configs[i].serverID == server {
          isRegistered := Some(configs[i].id);
          at := i;
        }
      }
    }

    /** initCommand. */
    method InitCommand(author: UserId, server: ServerId, channel: ChannelId, command: string, ok: bool, newId: string)
      requires Valid()
      modifies this
      ensures Valid() && State() == Init(old(State()), languages, author, server, channel, command, ok, newId)
    {
      ghost var w := State();
      var lang := Messages.ReplaceFirst(command, "init ", "");
      if lang !in languages {
        trace := trace + [Notify(author, BadLang)];
      } else {
        var isRegistered := FindRegistration(server);
        if isRegistered.Some? && isRegistered.value != "" {
          if ok {
            configs := Reassigned(configs, isRegistered.value, channel, lang);
          }
          trace := trace + [PutConfig(isRegistered.value, ok), Notify(author, if ok then ConfigUpdated else UnknownError)];
        } else {
          if ok {
            configs := configs + [ServerConfig(newId, server, channel, lang)];
          }
          trace := trace + [PostConfig(server, ok), Notify(author, if ok then ConfigCreated else UnknownError)];
        }
      }
      assert State() == Init(w, languages, author, server, channel, command, ok, newId);
      InitConsistent(w, languages, author, server, channel, command, ok, newId);
    }
  }
}
