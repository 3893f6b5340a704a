/**
  End-to-end runs of the services on a small store, checking that the
  operations compose as the application uses them.
 */
module Scenarios {
  import opened Seqs
  import opened Entities
  import opened Connections
  import opened Directory

  /** When exactly one stored user is connected to `user`, that user is the whole list. */
  lemma SoleConnection(s: Store, user: int, b: User)
    requires NoDuplicates(s.users) && b in s.users
    requires forall u :: u in s.users ==> (AreConnected(s, user, u.id) <==> u == b)
    ensures GetConnections(s, user) == [b]
  {
    var mine := GetConnections(s, user);
    assert b in mine;
    var i :| 0 <= i < |mine| && mine[i] == b;
    forall j | 0 <= j < |mine|
      ensures mine[j] == b && j == i
    {
      assert mine[j] in mine;
    }
    assert mine[0] == b && mine[|mine| - 1] == b;
  }

  /** The store after A's request to B has been accepted. */
  function Connected(a: User, b: User, c: User): Store {
    Store([a, b, c], [], [Connection(1, a.id, b.id, Accepted)])
  }

  /** The store after A's further request to C. */
  function Waiting(a: User, b: User, c: User): Store {
    Store([a, b, c], [], [Connection(1, a.id, b.id, Accepted), Connection(2, a.id, c.id, Pending)])
  }

  lemma FirstRequestAccepted(a: User, b: User, c: User)
    requires a.id != b.id
    ensures SendRequest(Store([a, b, c], [], []), a.id, b.id).Ok?
    ensures var s1 := SendRequest(Store([a, b, c], [], []), a.id, b.id).value.store;
            s1 == Store([a, b, c], [], [Connection(1, a.id, b.id, Pending)])
            && AcceptRequest(s1, a.id, b.id).Ok?
            && AcceptRequest(s1, a.id, b.id).value.store == Connected(a, b, c)
  {
  }

  lemma SecondRequestSent(a: User, b: User, c: User)
    requires a.id != b.id && b.id != c.id && a.id != c.id
    ensures SendRequest(Connected(a, b, c), a.id, c.id).Ok?
    ensures SendRequest(Connected(a, b, c), a.id, c.id).value.store == Waiting(a, b, c)
  {
  }

  /** With a→b accepted and a→c pending, a→c is pending but not a connection. */
  lemma WaitingPairs(a: User, b: User, c: User)
    requires a.id != b.id && b.id != c.id && a.id != c.id
    ensures IsPending(Waiting(a, b, c), a.id, c.id) && !AreConnected(Waiting(a, b, c), a.id, c.id)
    ensures AreConnected(Waiting(a, b, c), a.id, b.id) && !AreConnected(Waiting(a, b, c), a.id, a.id)
  {
    var s3 := Waiting(a, b, c);
    assert Directed(s3.connections[1], a.id, c.id, Pending);
    assert s3.connections[0].status == Accepted && Joins(s3.connections[0], a.id, b.id);
  }

  /** With a→b accepted and a→c pending, c is suggested to a and b is not. */
  lemma WaitingSuggestions(a: User, b: User, c: User)
    requires a.id != b.id && b.id != c.id && a.id != c.id
    ensures b !in SuggestedConnections(Waiting(a, b, c), a.id, 10)
    ensures c in SuggestedConnections(Waiting(a, b, c), a.id, 10)
  {
    var s3 := Waiting(a, b, c);
    assert s3.connections[0].status == Accepted && Joins(s3.connections[0], a.id, b.id);
    assert |SuggestedConnections(s3, a.id, 10)| < 10;
  }

  /** With a→b accepted and a→c pending, a's connections are exactly b. */
  lemma WaitingConnections(a: User, b: User, c: User)
    requires a.id != b.id && b.id != c.id && a.id != c.id
    ensures GetConnections(Waiting(a, b, c), a.id) == [b]
  {
    var s3 := Waiting(a, b, c);
    assert s3.connections[0].status == Accepted && Joins(s3.connections[0], a.id, b.id);
    assert NoDuplicates(s3.users);
    SoleConnection(s3, a.id, b);
  }

  /**
    Three users A, B, C. A sends to B and B accepts; A then sends to C, who
    does not answer. A and B are connected both ways, C is still suggested to
    A and B is not, and A's connections are exactly B.
   */
  lemma ThreeUserScenario(a: User, b: User, c: User) returns (s1: Store, s2: Store, s3: Store)
    requires a.id != b.id && b.id != c.id && a.id != c.id
    ensures SendRequest(Store([a, b, c], [], []), a.id, b.id).Ok?
    ensures SendRequest(Store([a, b, c], [], []), a.id, b.id).value.store == s1
    ensures AcceptRequest(s1, a.id, b.id).Ok? && AcceptRequest(s1, a.id, b.id).value.store == s2
    ensures AreConnected(s2, a.id, b.id) && AreConnected(s2, b.id, a.id)
    ensures SendRequest(s2, a.id, c.id).Ok? && SendRequest(s2, a.id, c.id).value.store == s3
    ensures IsPending(s3, a.id, c.id) && !AreConnected(s3, a.id, c.id)
    ensures b !in SuggestedConnections(s3, a.id, 10)
    ensures c in SuggestedConnections(s3, a.id, 10)
    ensures GetConnections(s3, a.id) == [b]
  {
    FirstRequestAccepted(a, b, c);
    s1 := SendRequest(Store([a, b, c], [], []), a.id, b.id).value.store;
    s2 := Connected(a, b, c);
    assert s2.connections[0].status == Accepted && Joins(s2.connections[0], a.id, b.id);
    SecondRequestSent(a, b, c);
    s3 := Waiting(a, b, c);
    WaitingPairs(a, b, c);
    WaitingSuggestions(a, b, c);
    WaitingConnections(a, b, c);
  }
}
