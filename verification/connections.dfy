/**
  The connection service: a request is sent as a pending row from sender to
  receiver, and the receiver's acceptance turns that row to accepted.
  Pending is directed; being connected is symmetric.
 */
module Connections {
  import opened Seqs
  import opened Entities

  /** Row `c` links `a` and `b`, in either direction. */
  predicate Joins(c: Connection, a: int, b: int) {
    (c.sender == a && c.receiver == b) || (c.sender == b && c.receiver == a)
  }

  /** Row `c` goes from `sender` to `receiver` and has status `st`. */
  predicate Directed(c: Connection, sender: int, receiver: int, st: Status) {
    c.sender == sender && c.receiver == receiver && c.status == st
  }

  /** Some row, in any status, links `a` and `b`. */
  predicate RowBetween(conns: seq<Connection>, a: int, b: int) {
    exists i :: 0 <= i < |conns| && Joins(conns[i], a, b)
  }

  /** Some accepted row links `a` and `b`. */
  predicate AcceptedBetween(conns: seq<Connection>, a: int, b: int) {
    exists i :: 0 <= i < |conns| && conns[i].status == Accepted && Joins(conns[i], a, b)
  }

  /** Some pending row goes from `sender` to `receiver`. */
  predicate PendingFrom(conns: seq<Connection>, sender: int, receiver: int) {
    exists i :: 0 <= i < |conns| && Directed(conns[i], sender, receiver, Pending)
  }

  /** At most one row for each unordered pair of users. */
  predicate PairUnique(conns: seq<Connection>) {
    forall i, j :: 0 <= i < j < |conns| ==> !Joins(conns[j], conns[i].sender, conns[i].receiver)
  }

  predicate IdsUnique(conns: seq<Connection>) {
    forall i, j :: 0 <= i < j < |conns| ==> conns[i].id != conns[j].id
  }

  predicate NeverRejected(conns: seq<Connection>) {
    forall i :: 0 <= i < |conns| ==> conns[i].status != Rejected
  }

  /** The invariant the two transitions keep. */
  predicate Valid(conns: seq<Connection>) {
    PairUnique(conns) && IdsUnique(conns) && NeverRejected(conns)
  }

  /**
    `send_connection_request`: refused when any row links the two users, in
    either direction and any status; otherwise one pending row from sender to
    receiver is appended and nothing else changes. Sending to oneself is not
    refused.
   */
  function SendRequest(s: Store, sender: int, receiver: int): (r: Result<Saved<Connection>>)
    ensures r.Err? <==> RowBetween(s.connections, sender, receiver)
    ensures r.Err? ==> r.error == AlreadyExists
    ensures r.Ok? ==> Directed(r.value.row, sender, receiver, Pending)
    ensures r.Ok? ==> forall i :: 0 <= i < |s.connections| ==> s.connections[i].id < r.value.row.id
    ensures r.Ok? ==> r.value.store.connections == s.connections + [r.value.row]
    ensures r.Ok? ==> r.value.store.users == s.users && r.value.store.posts == s.posts
  {
    match FirstIndex(s.connections, (c: Connection) => Joins(c, sender, receiver))
    case Some(_) => Err(AlreadyExists)
    case None =>
      var row := Connection(NextId(Ids(s.connections, (c: Connection) => c.id)), sender, receiver, Pending);
      Ok(Saved(s.(connections := s.connections + [row]), row))
  }

  /**
    `accept_connection_request`: finds the first pending row from sender to
    receiver and marks it accepted; refused when there is none.
   */
  function AcceptRequest(s: Store, sender: int, receiver: int): (r: Result<Saved<Connection>>)
    ensures r.Err? <==> !PendingFrom(s.connections, sender, receiver)
    ensures r.Err? ==> r.error == NotFound
    ensures r.Ok? ==> Directed(r.value.row, sender, receiver, Accepted)
    ensures r.Ok? ==> exists i :: 0 <= i < |s.connections|
                        && s.connections[i] == r.value.row.(status := Pending)
                        && r.value.store.connections == s.connections[i := r.value.row]
    ensures r.Ok? ==> r.value.store.users == s.users && r.value.store.posts == s.posts
  {
    match FirstIndex(s.connections, (c: Connection) => Directed(c, sender, receiver, Pending))
    case None => Err(NotFound)
    case Some(i) =>
      var row := s.connections[i].(status := Accepted);
      Ok(Saved(s.(connections := s.connections[i := row]), row))
  }

  /** `are_connected`: an accepted row links the two users, whichever sent it. */
  function AreConnected(s: Store, a: int, b: int): (r: bool)
    ensures r <==> AcceptedBetween(s.connections, a, b)
    ensures r <==> AcceptedBetween(s.connections, b, a)
  {
    FirstIndex(s.connections, (c: Connection) => c.status == Accepted && Joins(c, a, b)).Some?
  }

  /** `is_connection_pending`: a pending row goes from sender to receiver; the reverse direction is not consulted. */
  function IsPending(s: Store, sender: int, receiver: int): (r: bool)
    ensures r <==> PendingFrom(s.connections, sender, receiver)
  {
    FirstIndex(s.connections, (c: Connection) => Directed(c, sender, receiver, Pending)).Some?
  }

  /**
    The identifiers of the users `user` is connected to: receivers of the
    accepted rows `user` sent, together with senders of the accepted rows
    `user` received.
   */
  function ConnectedIds(s: Store, user: int): (r: set<int>)
    ensures forall x :: x in r <==> AcceptedBetween(s.connections, user, x)
  {
    var sent := set c | c in s.connections && c.status == Accepted && c.sender == user :: c.receiver;
    var received := set c | c in s.connections && c.status == Accepted && c.receiver == user :: c.sender;
    assert forall x :: AcceptedBetween(s.connections, user, x) ==> x in sent + received by {
      forall x | AcceptedBetween(s.connections, user, x)
        ensures x in sent + received
      {
        var i :| 0 <= i < |s.connections| && s.connections[i].status == Accepted
                 && Joins(s.connections[i], user, x);
        var c := s.connections[i];
        assert c in s.connections;
        if c.sender == user && c.receiver == x {
          assert x in sent;
        } else {
          assert x in received;
        }
      }
    }
    sent + received
  }

  /**
    `get_connections`: the users with an accepted row to or from `user`, each
    listed once, in table order.
   */
  function GetConnections(s: Store, user: int): (r: seq<User>)
    ensures forall u :: u in r <==> u in s.users && AreConnected(s, user, u.id)
    ensures NoDuplicates(s.users) ==> NoDuplicates(r)
  {
    var ids := ConnectedIds(s, user);
    var r := Filter(s.users, (u: User) => u.id in ids);
    assert NoDuplicates(s.users) ==> NoDuplicates(r) by {
      if NoDuplicates(s.users) {
        FilterNoDuplicates(s.users, (u: User) => u.id in ids);
      }
    }
    r
  }

  // ---------------------------------------------------------------------
  // The invariant
  // ---------------------------------------------------------------------

  /** A successful send keeps one row per pair, unique ids, and no rejected rows. */
  lemma SendPreservesValid(s: Store, sender: int, receiver: int)
    requires Valid(s.connections)
    requires SendRequest(s, sender, receiver).Ok?
    ensures Valid(SendRequest(s, sender, receiver).value.store.connections)
  {
  }

  /** A successful accept changes one status, so the invariant is kept. */
  lemma AcceptPreservesValid(s: Store, sender: int, receiver: int)
    requires Valid(s.connections)
    requires AcceptRequest(s, sender, receiver).Ok?
    ensures Valid(AcceptRequest(s, sender, receiver).value.store.connections)
  {
  }

  // ---------------------------------------------------------------------
  // The request lifecycle
  // ---------------------------------------------------------------------

  /**
    The three ways an accept fails on a valid store: no row between the two
    users, only a row in the opposite direction, or a row in the right
    direction that is already accepted.
   */
  lemma AcceptFailures(s: Store, sender: int, receiver: int)
    requires Valid(s.connections)
    ensures !RowBetween(s.connections, sender, receiver)
            ==> AcceptRequest(s, sender, receiver) == Err(NotFound)
    ensures sender != receiver
            && (forall i :: 0 <= i < |s.connections| && Joins(s.connections[i], sender, receiver)
                  ==> s.connections[i].sender == receiver)
            ==> AcceptRequest(s, sender, receiver) == Err(NotFound)
    ensures (exists i :: 0 <= i < |s.connections| && Directed(s.connections[i], sender, receiver, Accepted))
            ==> AcceptRequest(s, sender, receiver) == Err(NotFound)
  {
  }

  /** After a successful send, sending again in either direction is refused. */
  lemma SecondSendRefused(s: Store, a: int, b: int)
    requires SendRequest(s, a, b).Ok?
    ensures SendRequest(SendRequest(s, a, b).value.store, a, b) == Err(AlreadyExists)
    ensures SendRequest(SendRequest(s, a, b).value.store, b, a) == Err(AlreadyExists)
  {
    var conns' := SendRequest(s, a, b).value.store.connections;
    assert Joins(conns'[|conns'| - 1], a, b);
    assert Joins(conns'[|conns'| - 1], b, a);
  }

  /**
    A fresh request is pending in its own direction only, so the sender
    cannot accept it.
   */
  lemma PendingIsDirected(s: Store, a: int, b: int)
    requires a != b
    requires SendRequest(s, a, b).Ok?
    ensures IsPending(SendRequest(s, a, b).value.store, a, b)
    ensures !IsPending(SendRequest(s, a, b).value.store, b, a)
    ensures AcceptRequest(SendRequest(s, a, b).value.store, b, a) == Err(NotFound)
  {
    var conns := s.connections;
    var conns' := SendRequest(s, a, b).value.store.connections;
    assert Directed(conns'[|conns|], a, b, Pending);
  }

  /**
    Send followed by the receiver's accept connects the two users in both
    directions and leaves nothing pending from sender to receiver.
   */
  lemma SendThenAccept(s: Store, a: int, b: int)
    requires SendRequest(s, a, b).Ok?
    ensures AcceptRequest(SendRequest(s, a, b).value.store, a, b).Ok?
    ensures var s2 := AcceptRequest(SendRequest(s, a, b).value.store, a, b).value.store;
            AreConnected(s2, a, b) && AreConnected(s2, b, a) && !IsPending(s2, a, b)
  {
    var conns := s.connections;
    var s1 := SendRequest(s, a, b).value.store;
    assert Directed(s1.connections[|conns|], a, b, Pending);
    var saved := AcceptRequest(s1, a, b).value;
    var s2 := saved.store;
    var k :| 0 <= k < |s1.connections| && s1.connections[k] == saved.row.(status := Pending)
             && s2.connections == s1.connections[k := saved.row];
    assert k == |conns| by {
      if k < |conns| {
        assert s1.connections[k] == conns[k];
        assert Joins(conns[k], a, b);
      }
    }
    assert s2.connections[k].status == Accepted && Joins(s2.connections[k], a, b);
  }

  /** A pending row connects nobody: a send leaves everyone's connections as they were. */
  lemma SendKeepsConnections(s: Store, a: int, b: int, user: int)
    requires SendRequest(s, a, b).Ok?
    ensures ConnectedIds(SendRequest(s, a, b).value.store, user) == ConnectedIds(s, user)
    ensures GetConnections(SendRequest(s, a, b).value.store, user) == GetConnections(s, user)
  {
  }
}
