/** The message log and the conversation index built from it. */
module Conversations {

  datatype Message = Message(sender: nat, receiver: nat, product: nat, content: string, read: bool, at: int)

  datatype Conversation = Conversation(peer: nat, content: string, at: int, product: nat, unread: nat)

  // The other side of one of the user's messages.
  function Peer(m: Message, user: nat): nat {
    if m.sender == user then m.receiver else m.sender
  }

  predicate Concerns(m: Message, user: nat) {
    m.sender == user || m.receiver == user
  }

  predicate IsUnread(m: Message, user: nat) {
    m.receiver == user && !m.read
  }

  // The user's messages, newest first; the log is in the order of the keys.
  function NewestFirst(log: seq<Message>, user: nat): seq<Message> {
    if log == [] then []
    else
      var n := |log| - 1;
      (if Concerns(log[n], user) then [log[n]] else []) + NewestFirst(log[..n], user)
  }

  // ----- the plain readings of the log -----

  function UnreadFrom(log: seq<Message>, user: nat, peer: nat): nat {
    if log == [] then 0
    else
      var n := |log| - 1;
      UnreadFrom(log[..n], user, peer) + if IsUnread(log[n], user) && log[n].sender == peer then 1 else 0
  }

  function Unread(log: seq<Message>, user: nat): nat {
    if log == [] then 0
    else
      var n := |log| - 1;
      Unread(log[..n], user) + if IsUnread(log[n], user) then 1 else 0
  }

  // Message i is the newest one with its peer.
  predicate IsNewest(msgs: seq<Message>, user: nat, i: nat)
    requires i < |msgs|
  {
    forall j :: 0 <= j < i ==> Peer(msgs[j], user) != Peer(msgs[i], user)
  }

  function Summary(m: Message, user: nat, unread: nat): Conversation {
    Conversation(Peer(m, user), m.content, m.at, m.product, unread)
  }

  /** The index that a user must see, over messages newest first: one entry for each peer, from the newest message with
      that peer, in the order of these messages, with the exact number of unread messages from the peer. */
  ghost predicate IsIndex(msgs: seq<Message>, user: nat, index: seq<Conversation>) {
    exists newest: seq<nat> :: IsIndexAt(msgs, user, index, newest)
  }

  ghost predicate IsIndexAt(msgs: seq<Message>, user: nat, index: seq<Conversation>, newest: seq<nat>) {
    && ListsNewest(msgs, user, |msgs|, newest)
    && |index| == |newest|
    && forall k :: 0 <= k < |index| ==>
         index[k] == Summary(msgs[newest[k]], user, UnreadFrom(msgs, user, Peer(msgs[newest[k]], user)))
  }

  // Exactly the newest messages among the first n, in order.
  ghost predicate ListsNewest(msgs: seq<Message>, user: nat, n: nat, newest: seq<nat>) {
    && n <= |msgs|
    && (forall k :: 0 <= k < |newest| ==> newest[k] < n && IsNewest(msgs, user, newest[k]))
    && (forall k, l :: 0 <= k < l < |newest| ==> newest[k] < newest[l])
    && (forall i :: 0 <= i < n && IsNewest(msgs, user, i) ==> i in newest)
  }

  // ----- the service -----

  class MessageService {
    var log: seq<Message>

    constructor ()
      ensures log == []
    {
      log := [];
    }

    // Refuses messages to oneself.
    method Send(sender: nat, receiver: nat, product: nat, content: string, at: int) returns (ok: bool)
      modifies this
      ensures ok <==> sender != receiver
      ensures log == if ok then old(log) + [Message(sender, receiver, product, content, false, at)] else old(log)
    {
      if sender == receiver {
        return false;
      }
      log := log + [Message(sender, receiver, product, content, false, at)];
      ok := true;
    }

    // The rows that concern the user, newest first.
    method ListPeers(user: nat) returns (msgs: seq<Message>)
      ensures msgs == NewestFirst(log, user)
    {
      msgs := [];
      var i := 0;
      while i < |log|
        invariant 0 <= i <= |log|
        invariant msgs == NewestFirst(log[..i], user)
      {
        assert log[..i + 1][..i] == log[..i];
        if Concerns(log[i], user) {
          msgs := [log[i]] + msgs;
        }
        i := i + 1;
      }
      assert log[..i] == log;
    }

    method ListConversations(user: nat) returns (index: seq<Conversation>)
      ensures IsIndex(NewestFirst(log, user), user, index)
    {
      var msgs := ListPeers(user);
      AllConcern(log, user);
      var started, order, newest := StartConversations(msgs, user);
      StartedCovers(msgs, user, started, order, newest);
      var conversations := CountUnread(msgs, user, started);
      index := [];
      var k := 0;
      while k < |order|
        invariant 0 <= k <= |order| && |index| == k
        invariant forall l :: 0 <= l < k ==> index[l] == conversations[order[l]]
      {
        index := index + [conversations[order[k]]];
        k := k + 1;
      }
      hide ListsNewest, UnreadFrom;
      assert IsIndexAt(msgs, user, index, newest);
    }

    method MarkRead(user: nat, peer: nat) returns (count: nat)
      modifies this
      ensures log == Marked(old(log), user, peer)
      ensures count == UnreadFrom(old(log), user, peer)
    {
      count := 0;
      var i := 0;
      while i < |log|
        invariant 0 <= i <= |log| == |old(log)|
        invariant log[..i] == Marked(old(log)[..i], user, peer)
        invariant log[i..] == old(log)[i..]
        invariant count == UnreadFrom(old(log)[..i], user, peer)
      {
        assert old(log)[..i + 1][..i] == old(log)[..i];
        assert log[i] == log[i..][0] == old(log)[i];
        ghost var before := log;
        if IsUnread(log[i], user) && log[i].sender == peer {
          log := log[i := log[i].(read := true)];
          count := count + 1;
        }
        assert log[..i + 1] == before[..i] + [log[i]];
        assert log[i + 1..] == before[i..][1..];
        i := i + 1;
      }
      assert log[..i] == log && old(log)[..i] == old(log);
    }

    method UnreadCount(user: nat) returns (count: nat)
      ensures count == Unread(log, user)
    {
      count := 0;
      var i := 0;
      while i < |log|
        invariant 0 <= i <= |log|
        invariant count == Unread(log[..i], user)
      {
        assert log[..i + 1][..i] == log[..i];
        if IsUnread(log[i], user) {
          count := count + 1;
        }
        i := i + 1;
      }
      assert log[..i] == log;
    }
  }

  predicate HasEntry(conversations: map<nat, Conversation>, peer: nat, m: Message, user: nat) {
    peer == Peer(m, user) && peer in conversations && conversations[peer] == Summary(m, user, 0)
  }

  // After i messages: an entry for each peer, and the order in which the peers appeared.
  ghost predicate Started(msgs: seq<Message>, user: nat, i: nat, conversations: map<nat, Conversation>, order: seq<nat>, newest: seq<nat>) {
    && ListsNewest(msgs, user, i, newest) && |order| == |newest|
    && (forall k :: 0 <= k < |order| ==> newest[k] < |msgs| && HasEntry(conversations, order[k], msgs[newest[k]], user))
    && (forall p :: p in conversations ==> p in order)
    && (forall j :: 0 <= j < i ==> Peer(msgs[j], user) in conversations)
  }

  // The first loop.
  method StartConversations(msgs: seq<Message>, user: nat)
    returns (conversations: map<nat, Conversation>, order: seq<nat>, ghost newest: seq<nat>)
    ensures Started(msgs, user, |msgs|, conversations, order, newest)
  {
    hide Started;
    conversations, order, newest := map[], [], [];
    NothingStarted(msgs, user);
    var i := 0;
    while i < |msgs|
      invariant 0 <= i <= |msgs|
      invariant Started(msgs, user, i, conversations, order, newest)
    {
      var m := msgs[i];
      var peer := m.sender;
      if m.sender == user {
        peer := m.receiver;
      }
      if peer !in conversations {
        NewPeer(msgs, user, i, conversations, order, newest);
        conversations := conversations[peer := Conversation(peer, m.content, m.at, m.product, 0)];
        order := order + [peer];
        newest := newest + [i];
      } else {
        KnownPeer(msgs, user, i, conversations, order, newest);
      }
      i := i + 1;
    }
  }

  lemma NothingStarted(msgs: seq<Message>, user: nat)
    ensures Started(msgs, user, 0, map[], [], [])
  {
  }

  lemma NewPeer(msgs: seq<Message>, user: nat, i: nat, conversations: map<nat, Conversation>, order: seq<nat>, newest: seq<nat>)
    requires i < |msgs| && Started(msgs, user, i, conversations, order, newest)
    requires Peer(msgs[i], user) !in conversations
    ensures Started(msgs, user, i + 1, conversations[Peer(msgs[i], user) := Summary(msgs[i], user, 0)],
                    order + [Peer(msgs[i], user)], newest + [i])
  {
    ListsOneMore(msgs, user, i, newest);
    var peer := Peer(msgs[i], user);
    var grown := conversations[peer := Summary(msgs[i], user, 0)];
    assert HasEntry(grown, peer, msgs[i], user);
    EntryStays(conversations, peer, Summary(msgs[i], user, 0), user);
    hide ListsNewest, Peer, Summary, HasEntry;
    forall k | 0 <= k < |order| + 1
      ensures (newest + [i])[k] < |msgs| && HasEntry(grown, (order + [peer])[k], msgs[(newest + [i])[k]], user)
    {
      if k < |order| {
        assert (order + [peer])[k] == order[k] && (newest + [i])[k] == newest[k];
      }
    }
    assert forall x :: x in order + [peer] <==> x in order || x == peer;
  }

  // A new entry leaves the others.
  lemma EntryStays(conversations: map<nat, Conversation>, peer: nat, entry: Conversation, user: nat)
    requires peer !in conversations
    ensures forall p, m :: HasEntry(conversations, p, m, user) ==> HasEntry(conversations[peer := entry], p, m, user)
  {
  }

  lemma ListsOneMore(msgs: seq<Message>, user: nat, i: nat, newest: seq<nat>)
    requires i < |msgs| && ListsNewest(msgs, user, i, newest)
    requires forall j :: 0 <= j < i ==> Peer(msgs[j], user) != Peer(msgs[i], user)
    ensures ListsNewest(msgs, user, i + 1, newest + [i])
  {
    assert IsNewest(msgs, user, i);
    hide IsNewest, Peer;
    assert forall x :: x in newest + [i] <==> x in newest || x == i;
  }

  lemma KnownPeer(msgs: seq<Message>, user: nat, i: nat, conversations: map<nat, Conversation>, order: seq<nat>, newest: seq<nat>)
    requires i < |msgs| && Started(msgs, user, i, conversations, order, newest)
    requires Peer(msgs[i], user) in conversations
    ensures Started(msgs, user, i + 1, conversations, order, newest)
  {
    var k :| 0 <= k < |order| && order[k] == Peer(msgs[i], user);
    assert Peer(msgs[newest[k]], user) == Peer(msgs[i], user);
    assert !IsNewest(msgs, user, i);
    hide IsNewest, Peer;
  }

  lemma StartedCovers(msgs: seq<Message>, user: nat, conversations: map<nat, Conversation>, order: seq<nat>, newest: seq<nat>)
    requires Started(msgs, user, |msgs|, conversations, order, newest)
    ensures forall m :: m in msgs ==> Peer(m, user) in conversations
    ensures forall p :: p in conversations ==> conversations[p].unread == 0
  {
  }

  // The second loop: every sender has its entry, so no increment misses.
  method CountUnread(msgs: seq<Message>, user: nat, started: map<nat, Conversation>) returns (conversations: map<nat, Conversation>)
    requires forall m :: m in msgs ==> Peer(m, user) in started
    requires forall m :: m in msgs ==> Concerns(m, user)
    requires forall p :: p in started ==> started[p].unread == 0
    ensures conversations.Keys == started.Keys
    ensures forall p :: p in started ==> conversations[p] == started[p].(unread := UnreadFrom(msgs, user, p))
  {
    conversations := started;
    var j := 0;
    while j < |msgs|
      invariant 0 <= j <= |msgs|
      invariant conversations.Keys == started.Keys
      invariant forall p :: p in started ==> conversations[p] == started[p].(unread := UnreadFrom(msgs[..j], user, p))
    {
      assert msgs[..j + 1][..j] == msgs[..j];
      if msgs[j].receiver == user && !msgs[j].read {
        var peer := msgs[j].sender;
        assert msgs[j] in msgs && Peer(msgs[j], user) == peer;
        conversations := conversations[peer := conversations[peer].(unread := conversations[peer].unread + 1)];
      }
      j := j + 1;
    }
    assert msgs[..j] == msgs;
  }

  // One message as marking leaves it.
  function MarkedOne(m: Message, user: nat, peer: nat): Message {
    if IsUnread(m, user) && m.sender == peer then m.(read := true) else m
  }

  function Marked(log: seq<Message>, user: nat, peer: nat): (r: seq<Message>)
    ensures |r| == |log|
  {
    if log == [] then []
    else
      var n := |log| - 1;
      Marked(log[..n], user, peer) + [MarkedOne(log[n], user, peer)]
  }

  lemma {:induction false} AllConcern(log: seq<Message>, user: nat)
    ensures forall m :: m in NewestFirst(log, user) <==> m in log && Concerns(m, user)
  {
    if log != [] {
      var n := |log| - 1;
      AllConcern(log[..n], user);
      assert log == log[..n] + [log[n]];
    }
  }

  // ----- what the index means -----

  // Counting the user's own view counts the log.
  lemma {:induction false} ViewKeepsCounts(log: seq<Message>, user: nat, peer: nat)
    ensures UnreadFrom(NewestFirst(log, user), user, peer) == UnreadFrom(log, user, peer)
  {
    if log != [] {
      var n := |log| - 1;
      ViewKeepsCounts(log[..n], user, peer);
      if Concerns(log[n], user) {
        FirstCounts(log[n], NewestFirst(log[..n], user), user, peer);
      } else {
        assert NewestFirst(log, user) == NewestFirst(log[..n], user);
      }
    }
  }

  lemma {:induction false} FirstCounts(m: Message, msgs: seq<Message>, user: nat, peer: nat)
    ensures UnreadFrom([m] + msgs, user, peer) ==
            UnreadFrom(msgs, user, peer) + if IsUnread(m, user) && m.sender == peer then 1 else 0
  {
    if msgs == [] {
      assert [m] + msgs == [m] && [m][..0] == [];
    } else {
      var n := |msgs| - 1;
      FirstCounts(m, msgs[..n], user, peer);
      assert ([m] + msgs)[..n + 1] == [m] + msgs[..n];
    }
  }

  /** There is only one such index. */
  lemma IndexIsUnique(msgs: seq<Message>, user: nat, a: seq<Conversation>, b: seq<Conversation>)
    requires IsIndex(msgs, user, a) && IsIndex(msgs, user, b)
    ensures a == b
  {
    var newestA :| IsIndexAt(msgs, user, a, newestA);
    var newestB :| IsIndexAt(msgs, user, b, newestB);
    SortedListsAgree(newestA, newestB);
  }

  lemma {:induction false} SortedListsAgree(a: seq<nat>, b: seq<nat>)
    requires forall k, l :: 0 <= k < l < |a| ==> a[k] < a[l]
    requires forall k, l :: 0 <= k < l < |b| ==> b[k] < b[l]
    requires forall x :: x in a <==> x in b
    ensures a == b
  {
    assert a != [] ==> a[0] in a;
    assert b != [] ==> b[0] in b;
    if a != [] && b != [] {
      assert a[0] in b && b[0] in a;
      assert a[0] == b[0];
      forall x ensures x in a[1..] <==> x in b[1..] {
        assert x in a <==> x == a[0] || x in a[1..];
        assert x in b <==> x == b[0] || x in b[1..];
      }
      SortedListsAgree(a[1..], b[1..]);
    }
  }

  /** Each peer appears exactly once, each with the number of unread messages that the log holds from it. */
  lemma IndexEntries(log: seq<Message>, user: nat, index: seq<Conversation>)
    requires IsIndex(NewestFirst(log, user), user, index)
    ensures forall k, l :: 0 <= k < l < |index| ==> index[k].peer != index[l].peer
    ensures forall k :: 0 <= k < |index| ==> index[k].unread == UnreadFrom(log, user, index[k].peer)
  {
    var msgs := NewestFirst(log, user);
    var newest :| IsIndexAt(msgs, user, index, newest);
    hide NewestFirst, UnreadFrom;
    forall k, l | 0 <= k < l < |index| ensures index[k].peer != index[l].peer {
      assert IsNewest(msgs, user, newest[l]);
    }
    forall k | 0 <= k < |index| ensures index[k].unread == UnreadFrom(log, user, index[k].peer) {
      ViewKeepsCounts(log, user, index[k].peer);
    }
  }

  lemma PeerHasEntry(msgs: seq<Message>, user: nat, index: seq<Conversation>, newest: seq<nat>, i: nat)
    requires IsIndexAt(msgs, user, index, newest) && i < |msgs|
    ensures exists k :: 0 <= k < |index| && index[k].peer == Peer(msgs[i], user)
  {
    hide UnreadFrom;
    var first := FirstWithPeer(msgs, user, i);
    hide IsNewest;
    var k :| 0 <= k < |newest| && newest[k] == first;
    assert index[k].peer == Peer(msgs[i], user);
  }

  lemma EntryHasPeer(msgs: seq<Message>, user: nat, index: seq<Conversation>, newest: seq<nat>, k: nat)
    requires IsIndexAt(msgs, user, index, newest) && k < |index|
    ensures exists i :: 0 <= i < |msgs| && Peer(msgs[i], user) == index[k].peer
  {
    hide UnreadFrom, IsNewest;
    assert index[k] == Summary(msgs[newest[k]], user, UnreadFrom(msgs, user, Peer(msgs[newest[k]], user)));
    assert newest[k] < |msgs|;
  }

  // The peers of the entries are those of the messages.
  lemma IndexPeers(msgs: seq<Message>, user: nat, index: seq<Conversation>, peer: nat)
    requires IsIndex(msgs, user, index)
    ensures (exists k :: 0 <= k < |index| && index[k].peer == peer) <==>
            exists i :: 0 <= i < |msgs| && Peer(msgs[i], user) == peer
  {
    var newest :| IsIndexAt(msgs, user, index, newest);
    hide IsIndexAt, Peer;
    if k :| 0 <= k < |index| && index[k].peer == peer {
      EntryHasPeer(msgs, user, index, newest, k);
    }
    if i :| 0 <= i < |msgs| && Peer(msgs[i], user) == peer {
      PeerHasEntry(msgs, user, index, newest, i);
    }
  }

  /** Exactly the peers of the user's messages appear. */
  lemma IndexListsPeers(log: seq<Message>, user: nat, index: seq<Conversation>, peer: nat)
    requires IsIndex(NewestFirst(log, user), user, index)
    ensures (exists k :: 0 <= k < |index| && index[k].peer == peer) <==>
            exists m :: m in log && Concerns(m, user) && Peer(m, user) == peer
  {
    var msgs := NewestFirst(log, user);
    IndexPeers(msgs, user, index, peer);
    AllConcern(log, user);
    hide IsIndex, NewestFirst, Peer, Concerns;
    if i :| 0 <= i < |msgs| && Peer(msgs[i], user) == peer {
      assert msgs[i] in msgs;
    }
    if m :| m in log && Concerns(m, user) && Peer(m, user) == peer {
      var i :| 0 <= i < |msgs| && msgs[i] == m;
    }
  }

  lemma {:induction false} FirstWithPeer(msgs: seq<Message>, user: nat, i: nat) returns (first: nat)
    requires i < |msgs|
    ensures first <= i && Peer(msgs[first], user) == Peer(msgs[i], user) && IsNewest(msgs, user, first)
  {
    if j :| 0 <= j < i && Peer(msgs[j], user) == Peer(msgs[i], user) {
      first := FirstWithPeer(msgs, user, j);
    } else {
      first := i;
    }
  }

  function Total(index: seq<Conversation>): nat {
    if index == [] then 0 else Total(index[..|index| - 1]) + index[|index| - 1].unread
  }

  /** The unread counts of the index add up to the separate unread counter. */
  lemma IndexTotalsUnread(log: seq<Message>, user: nat, index: seq<Conversation>)
    requires IsIndex(NewestFirst(log, user), user, index)
    ensures Total(index) == Unread(log, user)
  {
    hide NewestFirst, IsIndex, UnreadFrom, SumOver, Total, Unread;
    IndexEntries(log, user, index);
    TotalIsSum(log, user, index);
    var peers := seq(|index|, k requires 0 <= k < |index| => index[k].peer);
    forall m | m in log && IsUnread(m, user) ensures m.sender in peers {
      IndexListsPeers(log, user, index, m.sender);
      assert Concerns(m, user) && (m.sender == user || Peer(m, user) == m.sender);
      var k :| 0 <= k < |index| && index[k].peer == m.sender;
      assert peers[k] == m.sender;
    }
    SumCoversLog(log, user, peers);
  }

  function SumOver(log: seq<Message>, user: nat, peers: seq<nat>): nat {
    if peers == [] then 0
    else SumOver(log, user, peers[..|peers| - 1]) + UnreadFrom(log, user, peers[|peers| - 1])
  }

  lemma {:induction false} TotalIsSum(log: seq<Message>, user: nat, index: seq<Conversation>)
    requires forall k :: 0 <= k < |index| ==> index[k].unread == UnreadFrom(log, user, index[k].peer)
    ensures Total(index) == SumOver(log, user, seq(|index|, k requires 0 <= k < |index| => index[k].peer))
  {
    if index != [] {
      var n := |index| - 1;
      TotalIsSum(log, user, index[..n]);
      var peers := seq(|index|, k requires 0 <= k < |index| => index[k].peer);
      assert peers[..n] == seq(n, k requires 0 <= k < n => index[..n][k].peer);
    }
  }

  lemma {:induction false} SumCoversLog(log: seq<Message>, user: nat, peers: seq<nat>)
    requires forall k, l :: 0 <= k < l < |peers| ==> peers[k] != peers[l]
    requires forall m :: m in log && IsUnread(m, user) ==> m.sender in peers
    ensures SumOver(log, user, peers) == Unread(log, user)
  {
    if log == [] {
      NothingToSum(user, peers);
    } else {
      var n := |log| - 1;
      SumCoversLog(log[..n], user, peers);
      SumOneMore(log, user, peers);
    }
  }

  lemma {:induction false} NothingToSum(user: nat, peers: seq<nat>)
    ensures SumOver([], user, peers) == 0
  {
    if peers != [] {
      NothingToSum(user, peers[..|peers| - 1]);
    }
  }

  // The last message counts for its sender, once, if the sender is listed.
  lemma {:induction false} SumOneMore(log: seq<Message>, user: nat, peers: seq<nat>)
    requires log != []
    requires forall k, l :: 0 <= k < l < |peers| ==> peers[k] != peers[l]
    ensures SumOver(log, user, peers) ==
            SumOver(log[..|log| - 1], user, peers) +
            if IsUnread(log[|log| - 1], user) && log[|log| - 1].sender in peers then 1 else 0
  {
    if peers != [] {
      SumOneMore(log, user, peers[..|peers| - 1]);
    }
  }

  /** Marking a conversation read zeroes the count of that peer and no other, and the total falls by just that count. */
  lemma {:induction false} MarkReadZeroesOnePeer(log: seq<Message>, user: nat, peer: nat)
    ensures forall p :: UnreadFrom(Marked(log, user, peer), user, p) == if p == peer then 0 else UnreadFrom(log, user, p)
    ensures Unread(Marked(log, user, peer), user) == Unread(log, user) - UnreadFrom(log, user, peer)
  {
    if log != [] {
      var n := |log| - 1;
      MarkReadZeroesOnePeer(log[..n], user, peer);
      assert Marked(log, user, peer)[..n] == Marked(log[..n], user, peer);
    }
  }

  // Marking marks every user's view message by message.
  lemma {:induction false} MarkedView(log: seq<Message>, user: nat, peer: nat, viewer: nat)
    ensures var msgs := NewestFirst(log, viewer);
            NewestFirst(Marked(log, user, peer), viewer) == seq(|msgs|, i requires 0 <= i < |msgs| => MarkedOne(msgs[i], user, peer))
  {
    if log != [] {
      var n := |log| - 1;
      var marked := Marked(log, user, peer);
      MarkedView(log[..n], user, peer, viewer);
      assert marked[..n] == Marked(log[..n], user, peer) && marked[n] == MarkedOne(log[n], user, peer);
      assert Concerns(marked[n], viewer) == Concerns(log[n], viewer);
    }
  }

  // The same messages are the newest after marking.
  lemma MarkedListsNewest(msgs: seq<Message>, marked: seq<Message>, user: nat, newest: seq<nat>)
    requires ListsNewest(msgs, user, |msgs|, newest) && |marked| == |msgs|
    requires forall i :: 0 <= i < |msgs| ==> Peer(marked[i], user) == Peer(msgs[i], user)
    ensures ListsNewest(marked, user, |marked|, newest)
  {
    hide Peer;
    assert forall i :: 0 <= i < |msgs| ==> IsNewest(marked, user, i) == IsNewest(msgs, user, i);
  }

  /** On the index, marking a conversation read zeroes the count of that entry and changes nothing else: the same peers
      stay in the same order, with the same message. */
  lemma MarkReadOnIndex(log: seq<Message>, user: nat, peer: nat, before: seq<Conversation>, after: seq<Conversation>)
    requires IsIndex(NewestFirst(log, user), user, before)
    requires IsIndex(NewestFirst(Marked(log, user, peer), user), user, after)
    ensures |after| == |before|
    ensures forall k :: 0 <= k < |before| ==>
              after[k] == if before[k].peer == peer then before[k].(unread := 0) else before[k]
  {
    var msgs := NewestFirst(log, user);
    var marked := NewestFirst(Marked(log, user, peer), user);
    MarkedView(log, user, peer, user);
    var expected := seq(|before|, k requires 0 <= k < |before| => if before[k].peer == peer then before[k].(unread := 0) else before[k]);
    var newest :| IsIndexAt(msgs, user, before, newest);
    MarkedListsNewest(msgs, marked, user, newest);
    hide NewestFirst, Marked, UnreadFrom, ListsNewest;
    forall k | 0 <= k < |before|
      ensures newest[k] < |msgs|
      ensures expected[k] == Summary(marked[newest[k]], user, UnreadFrom(marked, user, Peer(marked[newest[k]], user)))
    {
      NewestInRange(msgs, user, newest, k);
      MarkedCounts(log, user, peer, before[k].peer);
    }
    assert IsIndexAt(marked, user, expected, newest);
    IndexIsUnique(marked, user, after, expected);
  }

  lemma NewestInRange(msgs: seq<Message>, user: nat, newest: seq<nat>, k: nat)
    requires ListsNewest(msgs, user, |msgs|, newest) && k < |newest|
    ensures newest[k] < |msgs|
  {
  }

  lemma MarkedCounts(log: seq<Message>, user: nat, peer: nat, p: nat)
    ensures UnreadFrom(NewestFirst(Marked(log, user, peer), user), user, p) ==
            if p == peer then 0 else UnreadFrom(NewestFirst(log, user), user, p)
  {
    ViewKeepsCounts(log, user, p);
    ViewKeepsCounts(Marked(log, user, peer), user, p);
    MarkReadZeroesOnePeer(log, user, peer);
  }

  // ----- on the positions of the log -----

  // The positions of the user's messages, from the last one back.
  function Positions(log: seq<Message>, user: nat): seq<nat> {
    if log == [] then []
    else
      var n := |log| - 1;
      (if log[n].sender == user || log[n].receiver == user then [n] else []) + Positions(log[..n], user)
  }

  lemma {:induction false} PositionsDescend(log: seq<Message>, user: nat)
    ensures forall k :: 0 <= k < |Positions(log, user)| ==> Positions(log, user)[k] < |log|
    ensures forall k, l :: 0 <= k < l < |Positions(log, user)| ==> Positions(log, user)[k] > Positions(log, user)[l]
    ensures forall i :: 0 <= i < |log| ==> (i in Positions(log, user) <==> log[i].sender == user || log[i].receiver == user)
  {
    if log != [] {
      PositionsDescend(log[..|log| - 1], user);
    }
  }

  /** The user's view holds exactly the user's messages, the newest first. */
  lemma {:induction false} ViewIsNewestFirst(log: seq<Message>, user: nat)
    ensures var pos := Positions(log, user);
            && |NewestFirst(log, user)| == |pos|
            && forall k :: 0 <= k < |pos| ==> pos[k] < |log| && NewestFirst(log, user)[k] == log[pos[k]]
  {
    if log != [] {
      ViewIsNewestFirst(log[..|log| - 1], user);
    }
  }

  // Entry c shows message i of the log, the last one between the user and its peer.
  ghost predicate ShowsLast(log: seq<Message>, user: nat, c: Conversation, i: nat) {
    && i < |log| && user in {log[i].sender, log[i].receiver}
    && c.peer == (if log[i].sender == user then log[i].receiver else log[i].sender)
    && (c.content, c.at, c.product) == (log[i].content, log[i].at, log[i].product)
    && (forall j :: i < j < |log| ==> !((log[j].sender == user && log[j].receiver == c.peer)
                                        || (log[j].sender == c.peer && log[j].receiver == user)))
  }

  ghost predicate ShowsLatestFirst(log: seq<Message>, user: nat, index: seq<Conversation>, shown: seq<nat>) {
    && |shown| == |index|
    && (forall k :: 0 <= k < |index| ==> ShowsLast(log, user, index[k], shown[k]))
    && (forall k, l :: 0 <= k < l < |index| ==> shown[k] > shown[l])
  }

  lemma EntryShowsLast(log: seq<Message>, user: nat, index: seq<Conversation>, newest: seq<nat>, k: nat)
    requires IsIndexAt(NewestFirst(log, user), user, index, newest) && k < |index|
    ensures newest[k] < |Positions(log, user)| && ShowsLast(log, user, index[k], Positions(log, user)[newest[k]])
  {
    var msgs, pos := NewestFirst(log, user), Positions(log, user);
    ViewIsNewestFirst(log, user);
    PositionsDescend(log, user);
    assert newest[k] < |msgs| && IsNewest(msgs, user, newest[k]);
    assert index[k] == Summary(msgs[newest[k]], user, UnreadFrom(msgs, user, Peer(msgs[newest[k]], user)));
    hide IsIndexAt, NewestFirst, Positions, UnreadFrom, ListsNewest;
    assert log[pos[newest[k]]] == msgs[newest[k]];
    assert pos[newest[k]] in pos;
    forall j | pos[newest[k]] < j < |log| && j in pos ensures Peer(log[j], user) != index[k].peer {
      var l :| 0 <= l < |pos| && pos[l] == j;
      assert l < newest[k] && msgs[l] == log[j];
    }
  }

  /** Every entry of the index shows the last message between the user and its peer, and the entries come in the order of
      these messages, the latest first. */
  lemma IndexShowsLast(log: seq<Message>, user: nat, index: seq<Conversation>)
    requires IsIndex(NewestFirst(log, user), user, index)
    ensures exists shown :: ShowsLatestFirst(log, user, index, shown)
  {
    var newest :| IsIndexAt(NewestFirst(log, user), user, index, newest);
    PositionsDescend(log, user);
    assert |index| == |newest| && forall k, l :: 0 <= k < l < |newest| ==> newest[k] < newest[l];
    hide IsIndexAt, NewestFirst, Positions, ShowsLast, ListsNewest;
    forall k | 0 <= k < |index|
      ensures newest[k] < |Positions(log, user)| && ShowsLast(log, user, index[k], Positions(log, user)[newest[k]])
    {
      EntryShowsLast(log, user, index, newest, k);
    }
    var shown := seq(|index|, k requires 0 <= k < |index| => Positions(log, user)[newest[k]]);
    assert ShowsLatestFirst(log, user, index, shown);
  }

  // The positions of the unread messages of the user, and of those from the peer.
  function UnreadPositions(log: seq<Message>, user: nat): set<nat> {
    set i | 0 <= i < |log| && log[i].receiver == user && !log[i].read
  }

  function UnreadPositionsFrom(log: seq<Message>, user: nat, peer: nat): set<nat> {
    set i | 0 <= i < |log| && log[i].receiver == user && log[i].sender == peer && !log[i].read
  }

  /** The unread counters count exactly these messages. */
  lemma {:induction false} CountersAreSizes(log: seq<Message>, user: nat, peer: nat)
    ensures Unread(log, user) == |UnreadPositions(log, user)|
    ensures UnreadFrom(log, user, peer) == |UnreadPositionsFrom(log, user, peer)|
  {
    if log != [] {
      var n := |log| - 1;
      CountersAreSizes(log[..n], user, peer);
      OnePositionMore(log, user, peer);
      hide UnreadPositions, UnreadPositionsFrom;
    }
  }

  lemma OnePositionMore(log: seq<Message>, user: nat, peer: nat)
    requires log != []
    ensures var n := |log| - 1; var unread := log[n].receiver == user && !log[n].read;
            && n !in UnreadPositions(log[..n], user) && n !in UnreadPositionsFrom(log[..n], user, peer)
            && UnreadPositions(log, user) == UnreadPositions(log[..n], user) + (if unread then {n} else {})
            && UnreadPositionsFrom(log, user, peer) ==
               UnreadPositionsFrom(log[..n], user, peer) + (if unread && log[n].sender == peer then {n} else {})
  {
  }

  /** Marking sets the read flag of exactly the user's unread messages from the peer. */
  lemma {:induction false} MarkedAt(log: seq<Message>, user: nat, peer: nat, i: nat)
    requires i < |log|
    ensures Marked(log, user, peer)[i] ==
            if log[i].receiver == user && log[i].sender == peer && !log[i].read then log[i].(read := true) else log[i]
  {
    if i < |log| - 1 {
      MarkedAt(log[..|log| - 1], user, peer, i);
    }
  }

  /** Other users' counts stay when the user marks a conversation read, the peer's included. */
  lemma {:induction false} MarkReadSparesCounts(log: seq<Message>, user: nat, peer: nat, other: nat)
    requires other != user
    ensures Unread(Marked(log, user, peer), other) == Unread(log, other)
    ensures forall p :: UnreadFrom(Marked(log, user, peer), other, p) == UnreadFrom(log, other, p)
  {
    if log != [] {
      var n := |log| - 1;
      MarkReadSparesCounts(log[..n], user, peer, other);
      assert Marked(log, user, peer)[..n] == Marked(log[..n], user, peer);
    }
  }

  /** And so do their conversation indexes. */
  lemma MarkReadSparesOthers(log: seq<Message>, user: nat, peer: nat, other: nat, index: seq<Conversation>)
    requires other != user
    ensures IsIndex(NewestFirst(log, other), other, index) <==> IsIndex(NewestFirst(Marked(log, user, peer), other), other, index)
  {
    var before, after := NewestFirst(log, other), NewestFirst(Marked(log, user, peer), other);
    MarkedView(log, user, peer, other);
    MarkReadSparesCounts(log, user, peer, other);
    forall p ensures UnreadFrom(after, other, p) == UnreadFrom(before, other, p) {
      ViewKeepsCounts(log, other, p);
      ViewKeepsCounts(Marked(log, user, peer), other, p);
    }
    hide NewestFirst, Marked, UnreadFrom;
    if newest :| IsIndexAt(before, other, index, newest) {
      SameIndexAt(before, after, other, index, newest);
    }
    if newest :| IsIndexAt(after, other, index, newest) {
      SameIndexAt(after, before, other, index, newest);
    }
  }

  // The index does not depend on anything but the messages up to their flags, and the counts.
  lemma SameIndexAt(msgs: seq<Message>, same: seq<Message>, user: nat, index: seq<Conversation>, newest: seq<nat>)
    requires IsIndexAt(msgs, user, index, newest) && |same| == |msgs|
    requires forall i :: 0 <= i < |msgs| ==> same[i].(read := false) == msgs[i].(read := false)
    requires forall p :: UnreadFrom(same, user, p) == UnreadFrom(msgs, user, p)
    ensures IsIndexAt(same, user, index, newest)
  {
    hide UnreadFrom;
    assert forall i :: 0 <= i < |msgs| ==> Summary(same[i], user, 0) == Summary(msgs[i], user, 0);
    MarkedListsNewest(msgs, same, user, newest);
    hide ListsNewest;
    forall k | 0 <= k < |index|
      ensures newest[k] < |msgs|
      ensures index[k] == Summary(same[newest[k]], user, UnreadFrom(same, user, Peer(same[newest[k]], user)))
    {
      NewestInRange(msgs, user, newest, k);
    }
  }
}
