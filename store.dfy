/**
 * The messenger's database as one in-memory store, and the route handlers
 * of the messenger (`search_friends`, `friend_requests`,
 * `accept_friend_request`, `decline_friend_request`, `my_friends`,
 * `create_message`, `new_messages`) and of registration (`register`) as
 * methods on it.
 *
 * The caller of a route is an already authenticated user: an id that has a
 * row in `users`. Primary keys are handed out by one counter per table.
 */
module Messenger {
  import opened Models
  import opened Queries

  /** What `search_friends` reports (its flashed message). */
  datatype RequestOutcome = UserNotFound | SelfRequest | AlreadyRequested | RequestSent

  /** What `create_message` reports. */
  datatype MessageOutcome = RecipientNotFound | NotFriends | MessageSent

  /** What `register` reports. */
  datatype RegisterOutcome = UsernameTaken | Registered

  /** Keys handed out in order (no route deletes a user); names unique. */
  predicate UsersValid(users: seq<User>)
  {
    DenseUserIds(users) && UniqueUsernames(users)
  }

  /** A key of `users` when the table has `userCount` rows. */
  predicate IsUserKey(userCount: nat, id: nat)
  {
    0 < id <= userCount
  }

  /**
   * Keys unique and below the next key to hand out; both ends of every
   * row are users; no row links a user to themself; at most one row per
   * direction of a pair.
   */
  predicate FriendsValid(userCount: nat, friends: seq<Friends>, nextId: nat)
  {
    UniqueFriendsIds(friends)
    && (forall i :: 0 <= i < |friends| ==> friends[i].id < nextId)
    && (forall i :: 0 <= i < |friends| ==>
          IsUserKey(userCount, friends[i].sender) && IsUserKey(userCount, friends[i].recipient))
    && NoSelfRequests(friends) && NoDuplicateRequests(friends)
  }

  /**
   * Keys as for friends; sender and recipient of every message are users,
   * and no message is addressed to its own sender.
   */
  predicate MessagesValid(userCount: nat, messages: seq<Message>, nextId: nat)
  {
    UniqueMessageIds(messages)
    && (forall i :: 0 <= i < |messages| ==> messages[i].id < nextId)
    && (forall i :: 0 <= i < |messages| ==>
          IsUserKey(userCount, messages[i].sender) && IsUserKey(userCount, messages[i].recipient))
    && (forall i :: 0 <= i < |messages| ==> messages[i].sender != messages[i].recipient)
  }

  /** With dense keys, a user exists exactly when its key is in range. */
  lemma HasUserDense(users: seq<User>, id: nat)
    requires DenseUserIds(users)
    ensures HasUser(users, id) <==> IsUserKey(|users|, id)
  {
    GetUserDense(users, id);
  }

  /** The ids `my_friends` looks up are all keys of `users`. */
  lemma ConfirmedEndsAreKeys(userCount: nat, friends: seq<Friends>, nextId: nat, user: nat)
    requires FriendsValid(userCount, friends, nextId)
    ensures forall i :: 0 <= i < |SentConfirmed(friends, user)| ==>
      IsUserKey(userCount, Recipients(SentConfirmed(friends, user))[i])
    ensures forall i :: 0 <= i < |ReceivedConfirmed(friends, user)| ==>
      IsUserKey(userCount, Senders(ReceivedConfirmed(friends, user))[i])
  {
    var sent := SentConfirmed(friends, user);
    var received := ReceivedConfirmed(friends, user);
    forall i | 0 <= i < |sent|
      ensures IsUserKey(userCount, Recipients(sent)[i])
    {
      assert sent[i] in friends;
    }
    forall i | 0 <= i < |received|
      ensures IsUserKey(userCount, Senders(received)[i])
    {
      assert received[i] in friends;
    }
  }

  /** Deleting one row keeps the invariant of the friends table. */
  lemma DeleteKeepsFriendsValid(userCount: nat, friends: seq<Friends>, nextId: nat, k: nat)
    requires FriendsValid(userCount, friends, nextId)
    requires k < |friends|
    ensures FriendsValid(userCount, friends[..k] + friends[k + 1..], nextId)
  {
    var r := friends[..k] + friends[k + 1..];
    assert forall i :: 0 <= i < |r| ==> r[i] == friends[if i < k then i else i + 1];
  }

  /** A new request passing the checks of `search_friends` keeps the invariant of the friends table. */
  lemma AddRequestKeepsFriendsValid(userCount: nat, friends: seq<Friends>, nextId: nat, sender: nat, recipient: nat)
    requires FriendsValid(userCount, friends, nextId)
    requires IsUserKey(userCount, sender) && IsUserKey(userCount, recipient)
    requires sender != recipient && !HasRequest(friends, sender, recipient)
    ensures FriendsValid(userCount, friends + [Friends(nextId, sender, recipient, false)], nextId + 1)
  {
    forall i | 0 <= i < |friends|
      ensures friends[i].sender != sender || friends[i].recipient != recipient
    {
      assert friends[i] in friends;
    }
  }

  /** Confirming a row keeps the invariant of the friends table. */
  lemma ConfirmKeepsFriendsValid(userCount: nat, friends: seq<Friends>, nextId: nat, k: nat)
    requires FriendsValid(userCount, friends, nextId)
    requires k < |friends|
    ensures FriendsValid(userCount, friends[k := friends[k].(status := true)], nextId)
  {
  }

  /** Appending a message between two distinct users with a fresh key keeps the invariant of the messages table. */
  lemma AddMessageKeepsMessagesValid(userCount: nat, messages: seq<Message>, nextId: nat, m: Message)
    requires MessagesValid(userCount, messages, nextId)
    requires m.id == nextId && IsUserKey(userCount, m.sender) && IsUserKey(userCount, m.recipient)
    requires m.sender != m.recipient
    ensures MessagesValid(userCount, messages + [m], nextId + 1)
  {
  }

  /** Marking messages read keeps the invariant of the messages table. */
  lemma MarkReadKeepsMessagesValid(userCount: nat, messages: seq<Message>, nextId: nat, user: nat)
    requires MessagesValid(userCount, messages, nextId)
    ensures MessagesValid(userCount, MarkRead(messages, user), nextId)
  {
  }

  /** A fresh name and the next key keep the users table valid. */
  lemma AddUserKeepsUsersValid(users: seq<User>, u: User)
    requires UsersValid(users)
    requires u.id == |users| + 1 && !HasUsername(users, u.username)
    ensures UsersValid(users + [u])
  {
    forall i | 0 <= i < |users|
      ensures users[i].username != u.username
    {
      assert users[i] in users;
    }
  }

  class Store {
    var users: seq<User>
    var friends: seq<Friends>
    var messages: seq<Message>
    var nextFriendsId: nat
    var nextMessageId: nat

    ghost predicate Valid()
      reads this
    {
      UsersValid(users)
      && FriendsValid(|users|, friends, nextFriendsId)
      && MessagesValid(|users|, messages, nextMessageId)
    }

    /** An empty database; keys start at 1. */
    constructor ()
      ensures Valid()
      ensures users == [] && friends == [] && messages == []
      ensures nextFriendsId == 1 && nextMessageId == 1
    {
      users, friends, messages := [], [], [];
      nextFriendsId, nextMessageId := 1, 1;
    }

    /**
     * `register`: a taken name adds nobody; a fresh name adds exactly one
     * non-admin user with that name, e-mail and (already hashed) password.
     */
    method Register(username: string, email: string, password: string) returns (outcome: RegisterOutcome)
      requires Valid()
      modifies this
      ensures Valid()
      ensures friends == old(friends) && messages == old(messages)
      ensures nextFriendsId == old(nextFriendsId) && nextMessageId == old(nextMessageId)
      ensures outcome == UsernameTaken <==> HasUsername(old(users), username)
      ensures outcome == UsernameTaken ==> users == old(users)
      ensures outcome == Registered ==>
        users == old(users) + [User(|old(users)| + 1, username, email, password, false)]
    {
      var existing := GetByUsername(users, username);
      if existing.Some? {
        outcome := UsernameTaken;
      } else {
        var user := User(|users| + 1, username, email, password, false);
        AddUserKeepsUsersValid(users, user);
        users := users + [user];
        outcome := Registered;
      }
    }

    /**
     * `search_friends` (POST): resolve the name; refuse an unknown name and
     * the caller's own name; refuse when a row from the caller to the target
     * already exists, pending or confirmed; otherwise add one pending row
     * from the caller to the target. Only the friends table can change.
     */
    method SearchFriends(caller: nat, username: string) returns (outcome: RequestOutcome)
      requires Valid() && HasUser(users, caller)
      modifies this
      ensures Valid()
      ensures users == old(users) && messages == old(messages)
      ensures nextMessageId == old(nextMessageId)
      ensures match GetByUsername(users, username)
        case None =>
          outcome == UserNotFound && friends == old(friends) && nextFriendsId == old(nextFriendsId)
        case Some(target) =>
          if target.id == caller then
            outcome == SelfRequest && friends == old(friends) && nextFriendsId == old(nextFriendsId)
          else if HasRequest(old(friends), caller, target.id) then
            outcome == AlreadyRequested && friends == old(friends) && nextFriendsId == old(nextFriendsId)
          else
            outcome == RequestSent
            && friends == old(friends) + [Friends(old(nextFriendsId), caller, target.id, false)]
            && nextFriendsId == old(nextFriendsId) + 1
    {
      var found := GetByUsername(users, username);
      match found {
        case None =>
          outcome := UserNotFound;
        case Some(target) =>
          if target.id == caller {
            outcome := SelfRequest;
          } else if HasRequest(friends, caller, target.id) {
            outcome := AlreadyRequested;
          } else {
            HasUserDense(users, caller);
            HasUserDense(users, target.id);
            AddRequestKeepsFriendsValid(|users|, friends, nextFriendsId, caller, target.id);
            friends := friends + [Friends(nextFriendsId, caller, target.id, false)];
            nextFriendsId := nextFriendsId + 1;
            outcome := RequestSent;
          }
      }
    }

    /**
     * `friend_requests`: the pending requests addressed to the caller, and
     * for each of their senders the user `User.get` resolves it to.
     */
    method FriendRequests(caller: nat) returns (requests: seq<Friends>, senders: map<nat, Option<User>>)
      requires Valid() && HasUser(users, caller)
      ensures requests == PendingFor(friends, caller)
      ensures forall l :: l in requests ==> l.sender in senders
      ensures forall s :: s in senders ==> exists l :: l in requests && l.sender == s
      ensures forall s :: s in senders ==> senders[s] == GetUser(users, s) && senders[s].Some?
    {
      requests := PendingFor(friends, caller);
      forall i | 0 <= i < |requests|
        ensures IsUserKey(|users|, requests[i].sender)
      {
        assert requests[i] in friends;
      }
      senders := ResolveSenders(requests);
    }

    /** The loop of `friend_requests`: map the sender of each request to `User.get` of it. */
    method ResolveSenders(requests: seq<Friends>) returns (senders: map<nat, Option<User>>)
      requires DenseUserIds(users)
      requires forall i :: 0 <= i < |requests| ==> IsUserKey(|users|, requests[i].sender)
      ensures forall l :: l in requests ==> l.sender in senders
      ensures forall s :: s in senders ==> exists l :: l in requests && l.sender == s
      ensures forall s :: s in senders ==> senders[s] == GetUser(users, s) && senders[s].Some?
    {
      senders := map[];
      for i := 0 to |requests|
        invariant forall j :: 0 <= j < i ==> requests[j].sender in senders
        invariant forall s :: s in senders ==> exists j :: 0 <= j < i && requests[j].sender == s
        invariant forall s :: s in senders ==> senders[s] == GetUser(users, s) && senders[s].Some?
      {
        var req := requests[i];
        GetUserDense(users, req.sender);
        senders := senders[req.sender := GetUser(users, req.sender)];
      }
    }

    /**
     * `accept_friend_request`: confirm the request with that id when the
     * caller is its recipient; nothing else changes, and nothing at all
     * when there is no such request.
     */
    method AcceptFriendRequest(caller: nat, requestId: nat) returns (accepted: bool)
      requires Valid() && HasUser(users, caller)
      modifies this
      ensures Valid()
      ensures users == old(users) && messages == old(messages)
      ensures nextFriendsId == old(nextFriendsId)
      ensures nextMessageId == old(nextMessageId)
      ensures accepted <==> exists l :: l in old(friends) && l.id == requestId && l.recipient == caller
      ensures friends == Accepted(old(friends), requestId, caller)
    {
      UpdateIsAccepted(friends, requestId, caller);
      var found := FindRequest(friends, requestId, caller);
      match found {
        case None =>
          accepted := false;
        case Some(k) =>
          assert friends[k] in friends;
          ConfirmKeepsFriendsValid(|users|, friends, nextFriendsId, k);
          friends := friends[k := friends[k].(status := true)];
          accepted := true;
      }
    }

    /**
     * `decline_friend_request`: delete the request with that id when the
     * caller is its recipient; nothing else changes, and nothing at all
     * when there is no such request.
     */
    method DeclineFriendRequest(caller: nat, requestId: nat) returns (declined: bool)
      requires Valid() && HasUser(users, caller)
      modifies this
      ensures Valid()
      ensures users == old(users) && messages == old(messages)
      ensures nextFriendsId == old(nextFriendsId)
      ensures nextMessageId == old(nextMessageId)
      ensures declined <==> exists l :: l in old(friends) && l.id == requestId && l.recipient == caller
      ensures friends == Declined(old(friends), requestId, caller)
    {
      DeleteIsDeclined(friends, requestId, caller);
      var found := FindRequest(friends, requestId, caller);
      match found {
        case None =>
          declined := false;
        case Some(k) =>
          assert friends[k] in friends;
          DeleteKeepsFriendsValid(|users|, friends, nextFriendsId, k);
          friends := friends[..k] + friends[k + 1..];
          declined := true;
      }
    }

    /**
     * `my_friends` (without its cache): the users at the other end of the
     * caller's confirmed rows, those the caller sent first, then those the
     * caller received.
     */
    method MyFriends(caller: nat) returns (list: seq<User>)
      requires Valid() && HasUser(users, caller)
      ensures |list| == |FriendIds(friends, caller)|
      ensures forall i :: 0 <= i < |list| ==> GetUser(users, FriendIds(friends, caller)[i]) == Some(list[i])
    {
      var sent := SentConfirmed(friends, caller);
      var received := ReceivedConfirmed(friends, caller);
      ConfirmedEndsAreKeys(|users|, friends, nextFriendsId, caller);
      var sentTo := LookUpAll(Recipients(sent));
      var receivedFrom := LookUpAll(Senders(received));
      list := sentTo + receivedFrom;
    }

    /** `User.get` of each id in turn, appended to a list; every id is a key. */
    method LookUpAll(ids: seq<nat>) returns (found: seq<User>)
      requires DenseUserIds(users)
      requires forall i :: 0 <= i < |ids| ==> IsUserKey(|users|, ids[i])
      ensures |found| == |ids|
      ensures forall i :: 0 <= i < |ids| ==> GetUser(users, ids[i]) == Some(found[i])
    {
      found := [];
      for i := 0 to |ids|
        invariant |found| == i
        invariant forall j :: 0 <= j < i ==> GetUser(users, ids[j]) == Some(found[j])
      {
        GetUserDense(users, ids[i]);
        found := found + [GetUser(users, ids[i]).value];
      }
    }

    /**
     * `create_message` (POST): resolve the recipient's name; refuse an
     * unknown name; send only when a confirmed row joins caller and
     * recipient in either direction, appending one unread message. The text
     * is not checked. Only the messages table can change.
     */
    method CreateMessage(caller: nat, recipientName: string, text: string) returns (outcome: MessageOutcome)
      requires Valid() && HasUser(users, caller)
      modifies this
      ensures Valid()
      ensures users == old(users) && friends == old(friends)
      ensures nextFriendsId == old(nextFriendsId)
      ensures match GetByUsername(users, recipientName)
        case None =>
          outcome == RecipientNotFound && messages == old(messages) && nextMessageId == old(nextMessageId)
        case Some(recipient) =>
          if AreFriends(friends, caller, recipient.id) then
            outcome == MessageSent
            && messages == old(messages) + [Message(old(nextMessageId), caller, recipient.id, text, false)]
            && nextMessageId == old(nextMessageId) + 1
          else
            outcome == NotFriends && messages == old(messages) && nextMessageId == old(nextMessageId)
    {
      var found := GetByUsername(users, recipientName);
      match found {
        case None =>
          outcome := RecipientNotFound;
        case Some(recipient) =>
          var checkRequest1 := HasConfirmed(friends, recipient.id, caller);
          var checkRequest2 := HasConfirmed(friends, caller, recipient.id);
          if checkRequest1 || checkRequest2 {
            NobodyIsOwnFriend(friends, caller);
            HasUserDense(users, caller);
            HasUserDense(users, recipient.id);
            AddMessageKeepsMessagesValid(|users|, messages, nextMessageId,
              Message(nextMessageId, caller, recipient.id, text, false));
            messages := messages + [Message(nextMessageId, caller, recipient.id, text, false)];
            nextMessageId := nextMessageId + 1;
            outcome := MessageSent;
          } else {
            outcome := NotFriends;
          }
      }
    }

    /**
     * `new_messages`: one (sender's name, text) pair per unread message
     * addressed to the caller, in storage order (the query has no
     * `ORDER BY`; storage order is the order assumed for the database), each
     * marked read as it is listed. Other users' messages and read ones are untouched.
     */
    method NewMessages(caller: nat) returns (inbox: seq<(string, string)>)
      requires Valid() && HasUser(users, caller)
      modifies this
      ensures Valid()
      ensures users == old(users) && friends == old(friends)
      ensures nextFriendsId == old(nextFriendsId)
      ensures nextMessageId == old(nextMessageId)
      ensures messages == MarkRead(old(messages), caller)
      ensures |inbox| == |UnreadPositions(old(messages), caller)|
      ensures forall i :: 0 <= i < |inbox| ==>
        var m := old(messages)[UnreadPositions(old(messages), caller)[i]];
        GetUser(users, m.sender).Some?
        && inbox[i] == (GetUser(users, m.sender).value.username, m.messageText)
    {
      var unread := UnreadPositions(messages, caller);
      ghost var before := messages;
      forall i | 0 <= i < |unread|
        ensures IsUserKey(|users|, messages[unread[i]].sender)
      {
      }
      inbox := FetchAndMark(unread);
      MarkingFetchedIsMarkRead(before, caller);
      MarkReadKeepsMessagesValid(|users|, before, nextMessageId, caller);
    }

    /**
     * The loop of `new_messages`: for each fetched position in turn, record
     * the sender's name and the text, and mark that row read.
     */
    method FetchAndMark(positions: seq<nat>) returns (inbox: seq<(string, string)>)
      requires DenseUserIds(users)
      requires forall i :: 0 <= i < |positions| ==> positions[i] < |messages|
      requires forall i :: 0 <= i < |positions| ==> IsUserKey(|users|, messages[positions[i]].sender)
      modifies this
      ensures users == old(users) && friends == old(friends)
      ensures nextFriendsId == old(nextFriendsId) && nextMessageId == old(nextMessageId)
      ensures messages == MarkAt(old(messages), positions)
      ensures |inbox| == |positions|
      ensures forall i :: 0 <= i < |inbox| ==>
        var m := old(messages)[positions[i]];
        GetUser(users, m.sender).Some?
        && inbox[i] == (GetUser(users, m.sender).value.username, m.messageText)
    {
      inbox := [];
      for i := 0 to |positions|
        invariant users == old(users) && friends == old(friends)
        invariant nextFriendsId == old(nextFriendsId) && nextMessageId == old(nextMessageId)
        invariant messages == MarkAt(old(messages), positions[..i])
        invariant |inbox| == i
        invariant forall j :: 0 <= j < i ==>
          var m := old(messages)[positions[j]];
          GetUser(users, m.sender).Some?
          && inbox[j] == (GetUser(users, m.sender).value.username, m.messageText)
      {
        var p := positions[i];
        var m := messages[p];
        assert m.sender == old(messages)[p].sender && m.messageText == old(messages)[p].messageText;
        GetUserDense(users, m.sender);
        var sender := GetUser(users, m.sender);
        inbox := inbox + [(sender.value.username, m.messageText)];
        messages := messages[p := m.(statusCheck := true)];
        assert positions[..i + 1][..i] == positions[..i];
      }
      assert positions[..|positions|] == positions;
    }
  }
}
