/**
  The user directory queries: text search over names and headline, and
  suggestions of people to connect with.
 */
module Directory {
  import opened Seqs
  import opened Entities
  import opened Connections

  /** ASCII lower-casing, as the store's `lower()` applies it; other characters are kept. */
  function AsciiLower(c: char): (r: char)
    ensures 'A' <= c <= 'Z' ==> r as int == c as int + 32
    ensures !('A' <= c <= 'Z') ==> r == c
  {
    if 'A' <= c <= 'Z' then (c as int + 32) as char else c
  }

  function Lower(s: string): (r: string)
    ensures |r| == |s|
    ensures forall i :: 0 <= i < |s| ==> r[i] == AsciiLower(s[i])
  {
    seq(|s|, i requires 0 <= i < |s| => AsciiLower(s[i]))
  }

  /** `pat` occurs in `text` at some position. */
  ghost predicate IsSubstring(pat: string, text: string) {
    exists k :: 0 <= k <= |text| - |pat| && pat <= text[k..]
  }

  /** Past a non-matching first position, occurring in `text` is occurring in its tail. */
  lemma SubstringOfTail(pat: string, text: string)
    requires |text| > 0 && !(pat <= text)
    ensures IsSubstring(pat, text) <==> IsSubstring(pat, text[1..])
  {
    if IsSubstring(pat, text[1..]) {
      var k :| 0 <= k <= |text[1..]| - |pat| && pat <= text[1..][k..];
      assert text[1..][k..] == text[k + 1..];
    }
    if IsSubstring(pat, text) {
      var k :| 0 <= k <= |text| - |pat| && pat <= text[k..];
      assert k != 0 by {
        assert text[0..] == text;
      }
      assert text[1..][k - 1..] == text[k..];
    }
  }

  /**
    Substring search by trying each starting position in turn; it holds
    exactly when `pat` occurs in `text`.
   */
  function Contains(text: string, pat: string): (r: bool)
    ensures r <==> IsSubstring(pat, text)
    decreases |text|
  {
    if pat <= text then
      assert text[0..] == text;
      true
    else if |text| == 0 then false
    else
      SubstringOfTail(pat, text);
      Contains(text[1..], pat)
  }

  /** The `ilike '%q%'` test of one column: `lower(column)` contains `lower(q)`. */
  predicate ColumnMatches(column: string, q: string) {
    Contains(Lower(column), Lower(q))
  }

  /** The search filter: the query matches the first name, the last name or the headline. */
  function UserMatches(q: string, u: User): (r: bool)
    ensures r <==> FoundIn(q, u)
  {
    ColumnMatches(u.firstName, q) || ColumnMatches(u.lastName, q) || ColumnMatches(u.headline, q)
  }

  /** The search filter read as: the lower-cased query occurs in one of the lower-cased fields. */
  ghost predicate FoundIn(q: string, u: User) {
    IsSubstring(Lower(q), Lower(u.firstName))
    || IsSubstring(Lower(q), Lower(u.lastName))
    || IsSubstring(Lower(q), Lower(u.headline))
  }

  /**
    `search_users`: at most `limit` users, each with the query as a
    case-insensitive substring of a name or the headline; when fewer than
    `limit` come back, every such user is among them.
   */
  function SearchUsers(s: Store, q: string, limit: nat): (r: seq<User>)
    ensures |r| <= limit
    ensures forall u :: u in r ==> u in s.users && FoundIn(q, u)
    ensures |r| < limit ==> forall u :: u in s.users && FoundIn(q, u) ==> u in r
    ensures SubBag(r, s.users)
  {
    Take(Filter(s.users, (u: User) => UserMatches(q, u)), limit)
  }

  /**
    `get_suggested_connections`: at most `limit` users other than `user`
    that have no accepted row with `user`; when fewer than `limit` come back,
    every such user is among them. Pending rows exclude nobody.
   */
  function SuggestedConnections(s: Store, user: int, limit: nat): (r: seq<User>)
    ensures |r| <= limit
    ensures forall u :: u in r ==> u in s.users && u.id != user && !AreConnected(s, user, u.id)
    ensures |r| < limit ==> forall u :: u in s.users && u.id != user && !AreConnected(s, user, u.id) ==> u in r
    ensures SubBag(r, s.users)
  {
    var ids := ConnectedIds(s, user);
    Take(Filter(s.users, (u: User) => u.id != user && u.id !in ids), limit)
  }

  /** Sending a request changes nobody's suggestions. */
  lemma SendKeepsSuggestions(s: Store, a: int, b: int, user: int, limit: nat)
    requires SendRequest(s, a, b).Ok?
    ensures SuggestedConnections(SendRequest(s, a, b).value.store, user, limit)
            == SuggestedConnections(s, user, limit)
  {
    SendKeepsConnections(s, a, b, user);
  }

  /**
    A user with only a pending request from `a` is still suggested to `a`,
    unless the list is already full.
   */
  lemma PendingStillSuggested(s: Store, a: int, b: int, v: User, limit: nat)
    requires a != b
    requires v in s.users && v.id == b
    requires SendRequest(s, a, b).Ok?
    requires |SuggestedConnections(s, a, limit)| < limit
    ensures IsPending(SendRequest(s, a, b).value.store, a, b)
    ensures v in SuggestedConnections(SendRequest(s, a, b).value.store, a, limit)
  {
    SendKeepsSuggestions(s, a, b, a, limit);
    PendingIsDirected(s, a, b);
  }
}
