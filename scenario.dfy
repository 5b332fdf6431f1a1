/**
 * A session of two users driven through the route handlers: alice and bob
 * register, alice asks bob to be friends, bob accepts, alice writes to bob,
 * and bob fetches his new messages twice. It also shows that bob may still
 * send alice a request of his own, since the duplicate check of
 * `search_friends` looks at one direction only.
 */
module Scenario {
  import opened Models
  import opened Queries
  import opened Messenger

  const Alice := User(1, "alice", "alice@example.com", "hash-a", false)
  const Bob := User(2, "bob", "bob@example.com", "hash-b", false)

  /** alice, then bob, register on an empty database and get keys 1 and 2. */
  method SignUp() returns (db: Store)
    ensures fresh(db) && db.Valid()
    ensures db.users == [Alice, Bob] && db.friends == [] && db.messages == []
    ensures db.nextFriendsId == 1 && db.nextMessageId == 1
  {
    db := new Store();
    var r := db.Register(Alice.username, Alice.email, Alice.password);
    assert r == Registered;
    assert db.users == [Alice];
    assert !HasUsername(db.users, Bob.username);
    r := db.Register(Bob.username, Bob.email, Bob.password);
    assert r == Registered;
  }

  /** alice asks bob twice: the first request is stored pending, the second is refused. */
  method Request(db: Store)
    requires db.Valid()
    requires db.users == [Alice, Bob] && db.friends == [] && db.nextFriendsId == 1
    modifies db
    ensures db.Valid()
    ensures db.users == [Alice, Bob] && db.friends == [Friends(1, 1, 2, false)]
    ensures db.messages == old(db.messages) && db.nextMessageId == old(db.nextMessageId)
  {
    assert GetByUsername(db.users, "bob") == Some(Bob);
    assert HasUser(db.users, 1) by {
      assert db.users[0] == Alice;
    }
    var outcome := db.SearchFriends(1, "bob");
    assert outcome == RequestSent;
    assert db.friends == [Friends(1, 1, 2, false)];

    outcome := db.SearchFriends(1, "bob");
    assert Friends(1, 1, 2, false) in db.friends;
    assert outcome == AlreadyRequested;
  }

  /** alice cannot accept her own request (nothing changes); bob, its recipient, can. */
  method Accept(db: Store)
    requires db.Valid()
    requires db.users == [Alice, Bob] && db.friends == [Friends(1, 1, 2, false)]
    modifies db
    ensures db.Valid()
    ensures db.users == [Alice, Bob] && db.friends == [Friends(1, 1, 2, true)]
    ensures db.messages == old(db.messages) && db.nextMessageId == old(db.nextMessageId)
  {
    assert HasUser(db.users, 1) && HasUser(db.users, 2) by {
      assert db.users[0] == Alice && db.users[1] == Bob;
    }
    var accepted := db.AcceptFriendRequest(1, 1);
    assert !accepted;
    assert Friends(1, 1, 2, false) in db.friends;
    accepted := db.AcceptFriendRequest(2, 1);
    assert accepted;
  }

  /** Friends now, alice writes "hi" to bob; it is stored unread. */
  method Write(db: Store)
    requires db.Valid()
    requires db.users == [Alice, Bob] && db.friends == [Friends(1, 1, 2, true)]
    requires db.messages == [] && db.nextMessageId == 1
    modifies db
    ensures db.Valid()
    ensures db.users == [Alice, Bob] && db.friends == [Friends(1, 1, 2, true)]
    ensures db.messages == [Message(1, 1, 2, "hi", false)]
  {
    assert GetByUsername(db.users, "bob") == Some(Bob);
    assert HasUser(db.users, 1) by {
      assert db.users[0] == Alice;
    }
    assert db.friends[0] in db.friends;
    var sent := db.CreateMessage(1, "bob", "hi");
    assert sent == MessageSent;
  }

  /** bob's first fetch returns alice's message and marks it read; the second returns nothing. */
  method Read(db: Store)
    requires db.Valid()
    requires db.users == [Alice, Bob] && db.messages == [Message(1, 1, 2, "hi", false)]
    modifies db
    ensures db.Valid()
    ensures db.users == [Alice, Bob] && db.friends == old(db.friends)
    ensures db.messages == [Message(1, 1, 2, "hi", true)]
  {
    assert HasUser(db.users, 2) by {
      assert db.users[1] == Bob;
    }
    var inbox := db.NewMessages(2);
    assert UnreadPositions([Message(1, 1, 2, "hi", false)], 2) == [0];
    assert inbox == [("alice", "hi")];
    inbox := db.NewMessages(2);
    assert UnreadPositions([Message(1, 1, 2, "hi", true)], 2) == [];
    assert inbox == [];
  }

  /** The reverse direction is not checked: bob may still ask alice. */
  method ReverseRequest(db: Store)
    requires db.Valid()
    requires db.users == [Alice, Bob] && db.friends == [Friends(1, 1, 2, true)]
    modifies db
    ensures db.Valid()
    ensures db.friends == [Friends(1, 1, 2, true), Friends(old(db.nextFriendsId), 2, 1, false)]
  {
    assert GetByUsername(db.users, "alice") == Some(Alice);
    assert HasUser(db.users, 2) by {
      assert db.users[1] == Bob;
    }
    var outcome := db.SearchFriends(2, "alice");
    assert outcome == RequestSent;
  }

  method AliceAndBob()
  {
    var db := SignUp();
    Request(db);
    Accept(db);
    Write(db);
    Read(db);
    ReverseRequest(db);
  }
}
