/**
 * The queries the route handlers run against the `friends` and `messages`
 * tables, and the table updates they make, as pure functions of the tables.
 * The route handlers of the messenger (module Messenger) are proved against
 * these; the lemmas here relate several of them.
 */
module Queries {
  import opened Models

  /**
   * Row filters on the friends table: the `WHERE` clauses of the queries the
   * route handlers run, and `AllBut`, the complement of the lookup of
   * `decline_friend_request`, which describes the table left after it.
   */
  datatype Where =
    | LinkFrom(sender: nat, recipient: nat)        // search_friends: sender, recipient (any status)
    | ConfirmedLink(sender: nat, recipient: nat)   // create_message: sender, recipient, status == True
    | PendingTo(user: nat)                         // friend_requests: recipient == user, status == False
    | ConfirmedFrom(user: nat)                     // my_friends: sender == user, status == True
    | ConfirmedTo(user: nat)                       // my_friends: recipient == user, status == True
    | AllBut(requestId: nat, user: nat)            // every row except the request `requestId` addressed to `user`

  predicate Matches(l: Friends, w: Where)
  {
    match w
    case LinkFrom(a, b) => l.sender == a && l.recipient == b
    case ConfirmedLink(a, b) => l.sender == a && l.recipient == b && l.status
    case PendingTo(u) => l.recipient == u && !l.status
    case ConfirmedFrom(u) => l.sender == u && l.status
    case ConfirmedTo(u) => l.recipient == u && l.status
    case AllBut(id, u) => l.id != id || l.recipient != u
  }

  /** The rows of `friends` that match `w`, in storage order. */
  function Select(friends: seq<Friends>, w: Where): (r: seq<Friends>)
    ensures |r| <= |friends|
  {
    if friends == [] then []
    else if Matches(friends[0], w) then [friends[0]] + Select(friends[1..], w)
    else Select(friends[1..], w)
  }

  /** A row is selected exactly when it is in the table and matches. */
  lemma {:induction false} SelectMembers(friends: seq<Friends>, w: Where)
    ensures forall l :: l in Select(friends, w) <==> l in friends && Matches(l, w)
  {
    if friends != [] {
      SelectMembers(friends[1..], w);
      assert forall l :: l in friends <==> l == friends[0] || l in friends[1..];
    }
  }

  /** Each row is kept as often as it occurs in the table when it matches, and not at all otherwise. */
  lemma {:induction false} SelectCounts(friends: seq<Friends>, w: Where, l: Friends)
    ensures multiset(Select(friends, w))[l] == if Matches(l, w) then multiset(friends)[l] else 0
  {
    if friends != [] {
      SelectCounts(friends[1..], w, l);
      assert friends == [friends[0]] + friends[1..];
    }
  }

  /** The positions, in increasing order, of the rows from position `from` on that match `w`. */
  function MatchingPositions(friends: seq<Friends>, w: Where, from: nat := 0): (ps: seq<nat>)
    requires from <= |friends|
    decreases |friends| - from
    ensures forall i :: 0 <= i < |ps| ==> from <= ps[i] < |friends| && Matches(friends[ps[i]], w)
    ensures forall k :: from <= k < |friends| && Matches(friends[k], w) ==> k in ps
    ensures forall i, j :: 0 <= i < j < |ps| ==> ps[i] < ps[j]
  {
    if from == |friends| then []
    else if Matches(friends[from], w) then [from] + MatchingPositions(friends, w, from + 1)
    else MatchingPositions(friends, w, from + 1)
  }

  /** The rows at `positions`, in that order. */
  function RowsAt(friends: seq<Friends>, positions: seq<nat>): (r: seq<Friends>)
    requires forall i :: 0 <= i < |positions| ==> positions[i] < |friends|
    ensures |r| == |positions| && forall i :: 0 <= i < |r| ==> r[i] == friends[positions[i]]
  {
    seq(|positions|, i requires 0 <= i < |positions| => friends[positions[i]])
  }

  /** A selection keeps the matching rows in storage order: it reads the table at the matching positions. */
  lemma {:induction false} SelectInOrder(friends: seq<Friends>, w: Where, from: nat := 0)
    requires from <= |friends|
    decreases |friends| - from
    ensures Select(friends[from..], w) == RowsAt(friends, MatchingPositions(friends, w, from))
  {
    if from < |friends| {
      SelectInOrder(friends, w, from + 1);
      SelectFirst(friends, w, from);
      var rest := MatchingPositions(friends, w, from + 1);
      if Matches(friends[from], w) {
        RowsAtFirst(friends, from, rest);
      }
    }
  }

  /** One step of a selection over the rows from position `from` on. */
  lemma SelectFirst(friends: seq<Friends>, w: Where, from: nat)
    requires from < |friends|
    ensures Select(friends[from..], w)
      == if Matches(friends[from], w) then [friends[from]] + Select(friends[from + 1..], w)
         else Select(friends[from + 1..], w)
  {
    assert friends[from..][1..] == friends[from + 1..];
  }

  /** Reading one more position in front. */
  lemma RowsAtFirst(friends: seq<Friends>, p: nat, positions: seq<nat>)
    requires p < |friends| && forall i :: 0 <= i < |positions| ==> positions[i] < |friends|
    ensures RowsAt(friends, [p] + positions) == [friends[p]] + RowsAt(friends, positions)
  {
  }

  /** Removing row `k` from a table is the selection that drops exactly that row. */
  lemma {:induction false} SelectDropsOne(friends: seq<Friends>, w: Where, k: nat)
    requires k < |friends| && !Matches(friends[k], w)
    requires forall i :: 0 <= i < |friends| && i != k ==> Matches(friends[i], w)
    ensures Select(friends, w) == friends[..k] + friends[k + 1..]
  {
    if k == 0 {
      SelectKeepsAll(friends[1..], w);
    } else {
      var rest := friends[1..];
      SelectDropsOne(rest, w, k - 1);
      assert Select(friends, w) == [friends[0]] + (rest[..k - 1] + rest[k..]);
      assert rest[..k - 1] == friends[1..k] && rest[k..] == friends[k + 1..];
      assert [friends[0]] + friends[1..k] == friends[..k];
    }
  }

  /** A selection every row matches keeps the table as it is. */
  lemma {:induction false} SelectKeepsAll(friends: seq<Friends>, w: Where)
    requires forall i :: 0 <= i < |friends| ==> Matches(friends[i], w)
    ensures Select(friends, w) == friends
  {
    if friends != [] {
      SelectKeepsAll(friends[1..], w);
      assert friends == [friends[0]] + friends[1..];
    }
  }

  // ---------------------------------------------------------------------
  // The friends table

  /**
   * The duplicate check of `search_friends`: the query for a row from
   * `sender` to `recipient` finds one, whatever its status. Only this
   * direction is looked at.
   */
  function HasRequest(friends: seq<Friends>, sender: nat, recipient: nat): (found: bool)
    ensures found <==> exists l :: l in friends && l.sender == sender && l.recipient == recipient
  {
    var rows := Select(friends, LinkFrom(sender, recipient));
    SelectMembers(friends, LinkFrom(sender, recipient));
    assert rows != [] ==> rows[0] in rows;
    rows != []
  }

  /** One of the two checks of `create_message`: the query for a confirmed row from `sender` to `recipient` finds one. */
  function HasConfirmed(friends: seq<Friends>, sender: nat, recipient: nat): (found: bool)
    ensures found <==> exists l :: l in friends && l.sender == sender && l.recipient == recipient && l.status
  {
    var rows := Select(friends, ConfirmedLink(sender, recipient));
    SelectMembers(friends, ConfirmedLink(sender, recipient));
    assert rows != [] ==> rows[0] in rows;
    rows != []
  }

  /** Row `l` runs between `a` and `b`, in either direction. */
  predicate JoinsPair(l: Friends, a: nat, b: nat)
  {
    (l.sender == a && l.recipient == b) || (l.sender == b && l.recipient == a)
  }

  /** The gate of `create_message`: a confirmed row joins `a` and `b` in either direction. */
  function AreFriends(friends: seq<Friends>, a: nat, b: nat): (found: bool)
    ensures found <==> (exists l :: l in friends && l.status && JoinsPair(l, a, b))
  {
    HasConfirmed(friends, b, a) || HasConfirmed(friends, a, b)
  }

  /** At most one row per ordered (sender, recipient) pair. */
  predicate NoDuplicateRequests(friends: seq<Friends>)
  {
    forall i, j :: 0 <= i < j < |friends| ==>
      friends[i].sender != friends[j].sender || friends[i].recipient != friends[j].recipient
  }

  /** No row links a user to themself. */
  predicate NoSelfRequests(friends: seq<Friends>)
  {
    forall i :: 0 <= i < |friends| ==> friends[i].sender != friends[i].recipient
  }

  /** The query of `friend_requests`: requests addressed to `user` that are still pending. */
  function PendingFor(friends: seq<Friends>, user: nat): (r: seq<Friends>)
    ensures forall l :: l in r <==> l in friends && l.recipient == user && !l.status
  {
    SelectMembers(friends, PendingTo(user));
    Select(friends, PendingTo(user))
  }

  /** The first query of `my_friends`: confirmed rows that `user` sent. */
  function SentConfirmed(friends: seq<Friends>, user: nat): (r: seq<Friends>)
    ensures forall l :: l in r <==> l in friends && l.sender == user && l.status
  {
    SelectMembers(friends, ConfirmedFrom(user));
    Select(friends, ConfirmedFrom(user))
  }

  /** The second query of `my_friends`: confirmed rows that `user` received. */
  function ReceivedConfirmed(friends: seq<Friends>, user: nat): (r: seq<Friends>)
    ensures forall l :: l in r <==> l in friends && l.recipient == user && l.status
  {
    SelectMembers(friends, ConfirmedTo(user));
    Select(friends, ConfirmedTo(user))
  }

  /** The recipients of `links`, in order. */
  function Recipients(links: seq<Friends>): (r: seq<nat>)
    ensures |r| == |links| && forall i :: 0 <= i < |links| ==> r[i] == links[i].recipient
  {
    seq(|links|, i requires 0 <= i < |links| => links[i].recipient)
  }

  /** The senders of `links`, in order. */
  function Senders(links: seq<Friends>): (r: seq<nat>)
    ensures |r| == |links| && forall i :: 0 <= i < |links| ==> r[i] == links[i].sender
  {
    seq(|links|, i requires 0 <= i < |links| => links[i].sender)
  }

  /**
   * The ids `my_friends` lists for `user`: the recipients of the confirmed
   * rows `user` sent, then the senders of the confirmed rows `user`
   * received.
   */
  function FriendIds(friends: seq<Friends>, user: nat): (r: seq<nat>)
    ensures |r| == |SentConfirmed(friends, user)| + |ReceivedConfirmed(friends, user)|
    ensures forall i :: 0 <= i < |r| ==> AreFriends(friends, user, r[i])
  {
    Recipients(SentConfirmed(friends, user)) + Senders(ReceivedConfirmed(friends, user))
  }

  /**
   * `my_friends` lists exactly the users `create_message` lets `user` write
   * to: those joined to `user` by a confirmed row in either direction.
   */
  lemma FriendIdsAreFriends(friends: seq<Friends>, user: nat)
    ensures forall v :: v in FriendIds(friends, user) <==> AreFriends(friends, user, v)
  {
    var sent := SentConfirmed(friends, user);
    var received := ReceivedConfirmed(friends, user);
    var r := FriendIds(friends, user);
    forall v | v in r
      ensures AreFriends(friends, user, v)
    {
      var k :| 0 <= k < |r| && r[k] == v;
      if k < |sent| {
        assert sent[k] in sent;
      } else {
        assert received[k - |sent|] in received;
      }
    }
    forall v | AreFriends(friends, user, v)
      ensures v in r
    {
      if HasConfirmed(friends, user, v) {
        var l :| l in friends && l.sender == user && l.recipient == v && l.status;
        var k :| 0 <= k < |sent| && sent[k] == l;
        assert r[k] == v;
      } else {
        var l :| l in friends && l.sender == v && l.recipient == user && l.status;
        var k :| 0 <= k < |received| && received[k] == l;
        assert r[|sent| + k] == v;
      }
    }
  }

  /**
   * The lookup of `accept_friend_request` and `decline_friend_request`:
   * the position of the first row with primary key `requestId` whose
   * recipient is `user`, or nothing.
   */
  function FindRequest(friends: seq<Friends>, requestId: nat, user: nat, from: nat := 0): (r: Option<nat>)
    requires from <= |friends|
    decreases |friends| - from
    ensures r.Some? ==>
      from <= r.value < |friends| && friends[r.value].id == requestId && friends[r.value].recipient == user
    ensures r.None? ==> forall k :: from <= k < |friends| ==>
      friends[k].id != requestId || friends[k].recipient != user
  {
    if from == |friends| then None
    else if friends[from].id == requestId && friends[from].recipient == user then Some(from)
    else FindRequest(friends, requestId, user, from + 1)
  }

  /** The table after `user` accepts request `requestId`. */
  function Accepted(friends: seq<Friends>, requestId: nat, user: nat): (r: seq<Friends>)
    ensures |r| == |friends|
    ensures forall k :: 0 <= k < |friends| ==> r[k] == friends[k].(status := r[k].status)
    ensures forall k :: 0 <= k < |friends| ==>
      r[k].status == (friends[k].status || (friends[k].id == requestId && friends[k].recipient == user))
  {
    seq(|friends|, k requires 0 <= k < |friends| =>
      if friends[k].id == requestId && friends[k].recipient == user
      then friends[k].(status := true) else friends[k])
  }

  /** The table after `user` declines request `requestId`. */
  function Declined(friends: seq<Friends>, requestId: nat, user: nat): (r: seq<Friends>)
    ensures forall l :: l in r <==> l in friends && (l.id != requestId || l.recipient != user)
  {
    SelectMembers(friends, AllBut(requestId, user));
    Select(friends, AllBut(requestId, user))
  }

  /**
   * Accepting can only confirm a request addressed to the caller: the
   * sender of a request accepting it by its id changes nothing.
   */
  lemma SenderCannotConfirm(friends: seq<Friends>, k: nat)
    requires UniqueFriendsIds(friends) && NoSelfRequests(friends)
    requires k < |friends|
    ensures Accepted(friends, friends[k].id, friends[k].sender) == friends
  {
    var r := Accepted(friends, friends[k].id, friends[k].sender);
    forall i | 0 <= i < |friends|
      ensures r[i] == friends[i]
    {
      if i != k {
        assert friends[i].id != friends[k].id by {
          if i < k {
            assert friends[i].id != friends[k].id;
          } else {
            assert friends[k].id != friends[i].id;
          }
        }
      }
    }
  }

  /** Once the recipient accepts, the two users list each other as friends. */
  lemma AcceptMakesFriends(friends: seq<Friends>, k: nat)
    requires k < |friends|
    ensures var r := Accepted(friends, friends[k].id, friends[k].recipient);
      friends[k].recipient in FriendIds(r, friends[k].sender)
      && friends[k].sender in FriendIds(r, friends[k].recipient)
  {
    var r := Accepted(friends, friends[k].id, friends[k].recipient);
    assert r[k] in r;
    assert HasConfirmed(r, friends[k].sender, friends[k].recipient);
    FriendIdsAreFriends(r, friends[k].sender);
    FriendIdsAreFriends(r, friends[k].recipient);
  }

  /** Friendship as listed by `my_friends` is symmetric. */
  lemma FriendListsSymmetric(friends: seq<Friends>, a: nat, b: nat)
    ensures b in FriendIds(friends, a) <==> a in FriendIds(friends, b)
  {
    FriendIdsAreFriends(friends, a);
    FriendIdsAreFriends(friends, b);
  }

  /**
   * `search_friends` refuses the caller's own name, so no row links a user
   * to themself and nobody passes the gate of `create_message` with
   * themself.
   */
  lemma NobodyIsOwnFriend(friends: seq<Friends>, user: nat)
    requires NoSelfRequests(friends)
    ensures !AreFriends(friends, user, user)
  {
    forall l | l in friends
      ensures l.sender != l.recipient
    {
      var i :| 0 <= i < |friends| && friends[i] == l;
    }
  }

  /**
   * The duplicate check of `search_friends` looks at one direction only, so
   * two users may hold confirmed rows in both directions; `my_friends` then
   * lists each of them twice for the other.
   */
  lemma MutualRowsListTwice(friends: seq<Friends>, a: nat, b: nat)
    requires HasConfirmed(friends, a, b) && HasConfirmed(friends, b, a)
    ensures multiset(FriendIds(friends, a))[b] >= 2
  {
    var sent := SentConfirmed(friends, a);
    var received := ReceivedConfirmed(friends, a);
    var there :| there in friends && there.sender == a && there.recipient == b && there.status;
    var back :| back in friends && back.sender == b && back.recipient == a && back.status;
    var i :| 0 <= i < |sent| && sent[i] == there;
    var j :| 0 <= j < |received| && received[j] == back;
    assert Recipients(sent)[i] == b;
    assert Senders(received)[j] == b;
    assert multiset(FriendIds(friends, a)) == multiset(Recipients(sent)) + multiset(Senders(received));
  }

  /**
   * Declining removes the only row from that sender to the caller, so the
   * sender's same-direction duplicate check no longer finds one.
   */
  lemma DeclineReopensRequest(friends: seq<Friends>, k: nat)
    requires NoDuplicateRequests(friends)
    requires k < |friends|
    ensures !HasRequest(Declined(friends, friends[k].id, friends[k].recipient), friends[k].sender, friends[k].recipient)
  {
    var l := friends[k];
    var r := Declined(friends, l.id, l.recipient);
    forall x | x in r && x.recipient == l.recipient
      ensures x.sender != l.sender
    {
      var j :| 0 <= j < |friends| && friends[j] == x;
      assert j != k;
    }
  }

  /**
   * The two constructions of a decline agree when ids are unique: deleting
   * the row `FindRequest` locates is the same as `Declined`.
   */
  lemma DeleteIsDeclined(friends: seq<Friends>, requestId: nat, user: nat)
    requires UniqueFriendsIds(friends)
    ensures match FindRequest(friends, requestId, user)
      case None => Declined(friends, requestId, user) == friends
      case Some(k) => Declined(friends, requestId, user) == friends[..k] + friends[k + 1..]
  {
    var w := AllBut(requestId, user);
    match FindRequest(friends, requestId, user)
    case None =>
      SelectKeepsAll(friends, w);
    case Some(k) =>
      forall i | 0 <= i < |friends| && i != k
        ensures Matches(friends[i], w)
      {
        if i < k {
          assert friends[i].id != friends[k].id;
        } else {
          assert friends[k].id != friends[i].id;
        }
      }
      SelectDropsOne(friends, w, k);
  }

  /**
   * The two constructions of an accept agree when ids are unique: updating
   * the row `FindRequest` locates is the same as `Accepted`.
   */
  lemma UpdateIsAccepted(friends: seq<Friends>, requestId: nat, user: nat)
    requires UniqueFriendsIds(friends)
    ensures match FindRequest(friends, requestId, user)
      case None => Accepted(friends, requestId, user) == friends
      case Some(k) => Accepted(friends, requestId, user) == friends[k := friends[k].(status := true)]
  {
    match FindRequest(friends, requestId, user)
    case None =>
    case Some(k) =>
      forall i | 0 <= i < |friends| && i != k
        ensures friends[i].id != requestId
      {
        if i < k {
          assert friends[i].id != friends[k].id;
        } else {
          assert friends[k].id != friends[i].id;
        }
      }
  }

  // ---------------------------------------------------------------------
  // The messages table

  /** A message `user` has not read yet. */
  predicate IsUnreadFor(m: Message, user: nat)
  {
    m.recipient == user && !m.statusCheck
  }

  /**
   * The query of `new_messages`: the positions, in storage order, of the
   * messages addressed to `user` that are unread (from position `from` on).
   * It has the shape of `MatchingPositions` on the friends table, with
   * `IsUnreadFor` as the filter; the messages query has this one filter
   * only, so it is not routed through `Where`.
   */
  function UnreadPositions(messages: seq<Message>, user: nat, from: nat := 0): (r: seq<nat>)
    requires from <= |messages|
    decreases |messages| - from
    ensures forall i :: 0 <= i < |r| ==> from <= r[i] < |messages| && IsUnreadFor(messages[r[i]], user)
    ensures forall k :: from <= k < |messages| && IsUnreadFor(messages[k], user) ==> k in r
    ensures forall i, j :: 0 <= i < j < |r| ==> r[i] < r[j]
  {
    if from == |messages| then []
    else if IsUnreadFor(messages[from], user) then [from] + UnreadPositions(messages, user, from + 1)
    else UnreadPositions(messages, user, from + 1)
  }

  /** The table after every unread message of `user` is marked read. */
  function MarkRead(messages: seq<Message>, user: nat): (r: seq<Message>)
    ensures |r| == |messages|
    ensures forall k :: 0 <= k < |messages| ==> r[k] == messages[k].(statusCheck := r[k].statusCheck)
    ensures forall k :: 0 <= k < |messages| ==>
      r[k].statusCheck == (messages[k].statusCheck || messages[k].recipient == user)
  {
    seq(|messages|, k requires 0 <= k < |messages| =>
      if IsUnreadFor(messages[k], user) then messages[k].(statusCheck := true) else messages[k])
  }

  /**
   * The table after the rows at `positions` are marked read one after the
   * other, as the loop of `new_messages` does.
   */
  function MarkAt(messages: seq<Message>, positions: seq<nat>): (r: seq<Message>)
    requires forall i :: 0 <= i < |positions| ==> positions[i] < |messages|
    ensures |r| == |messages|
    ensures forall k :: 0 <= k < |messages| ==>
      r[k] == if k in positions then messages[k].(statusCheck := true) else messages[k]
  {
    if positions == [] then messages
    else
      var prev := MarkAt(messages, positions[..|positions| - 1]);
      var p := positions[|positions| - 1];
      assert forall k :: k in positions <==> k in positions[..|positions| - 1] || k == p by {
        assert positions == positions[..|positions| - 1] + [p];
      }
      prev[p := prev[p].(statusCheck := true)]
  }

  /** Marking each fetched unread row read is marking all of `user`'s unread messages read. */
  lemma MarkingFetchedIsMarkRead(messages: seq<Message>, user: nat)
    ensures MarkAt(messages, UnreadPositions(messages, user)) == MarkRead(messages, user)
  {
    var ps := UnreadPositions(messages, user);
    forall k | 0 <= k < |messages|
      ensures k in ps <==> IsUnreadFor(messages[k], user)
    {
      if k in ps {
        var i :| 0 <= i < |ps| && ps[i] == k;
      }
    }
  }

  /** Once everything is marked read, a second fetch finds nothing unread. */
  lemma {:induction false} ReadTwiceIsEmpty(messages: seq<Message>, user: nat, from: nat := 0)
    requires from <= |messages|
    decreases |messages| - from
    ensures UnreadPositions(MarkRead(messages, user), user, from) == []
  {
    if from < |messages| {
      assert !IsUnreadFor(MarkRead(messages, user)[from], user);
      ReadTwiceIsEmpty(messages, user, from + 1);
    }
  }
}
