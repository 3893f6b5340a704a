# Connections, feed and display helpers of a professional social network

This project models, in Dafny, the parts of a small server-rendered
professional networking application that carry logic of their own:

- the **connection service**: a connection request is stored as a row from
  sender to receiver with status `pending`; the receiver's acceptance turns
  that row to `accepted`. Pending is directed, being connected is
  symmetric, and at most one row exists for any unordered pair of users;
- the **user directory queries**: case-insensitive search over first name,
  last name and headline, and suggestions of people to connect with;
- the **post feed**: creating a post, and listing posts newest first,
  over all users or for one author;
- **`format_time_ago`**, which renders the age of a timestamp as
  `"3d ago"`, `"5h ago"`, `"12m ago"` or `"Just now"`;
- **`escapeHtml`**, the browser-side helper that replaces the five
  HTML-special characters by entities.

The store is an immutable value: three sequences of rows (users, posts,
connections) in table order. Queries are pure functions of the store;
writes return a new store together with the row written, or an error.
`.first()` is the first matching row in table order (`Seqs.FirstIndex`),
a `WHERE` clause is `Seqs.Filter`, a `LIMIT` is `Seqs.Take`. A new row's
identifier is one more than the largest identifier in its table (1 for an
empty table), as SQLite allocates integer primary keys.

Files, one module each: `seqs.dfy` (sequence helpers), `entities.dfy`
(rows, store, results), `connections.dfy`, `directory.dfy`, `feed.dfy`,
`time_ago.dfy`, `html_escape.dfy`, and `scenarios.dfy` (the services
composed end to end).

In three places the code accepts more than one might expect; the model
follows the code:

- `send_connection_request` does not refuse a request from a user to
  themself; `SendRequest` does not either.
- `create_post` does not refuse empty content and does not check that the
  author exists; `CreatePost` has no error path.
- Both connection failures raise the same plain `ValueError` with different
  messages; the model distinguishes them as `AlreadyExists` (send) and
  `NotFound` (accept).

Partners used to state properties independently of the code's own
formulation: `Unescape` (the inverse of `escapeHtml`), `Parse` (reads a
time-ago phrase back), `IsSubstring` (the definition behind the search),
and the existential predicates `RowBetween`, `AcceptedBetween` and
`PendingFrom` behind the scanning queries. None of these exists in the
application.

## Model

| member | source | states |
|---|---|---|
| Seqs.FirstIndex | services/business.py:130-137 | the index returned is the first row satisfying the filter; None exactly when no row satisfies it |
| Seqs.Filter | services/business.py:69-72 | a `WHERE` clause: an element is kept exactly when it is in the table and satisfies the condition; the result is a sub-multiset of the table and no longer than it |
| Seqs.Take | services/business.py:92 | a `LIMIT n` clause: the first min(n, length) elements of the input, in order, each drawn from the input |
| Seqs.FilterNoDuplicates | services/business.py:186-187 | selecting from a table without repeated rows gives a list without repeats |
| Entities.NextId | core/database.py:53 | a new row's identifier is larger than every identifier in the table, one more than the largest, and 1 for an empty table |
| Connections.SendRequest | services/business.py:104-126 | refused with AlreadyExists exactly when some row, in either direction and any status, links the two users; otherwise exactly one pending row sender→receiver with a fresh id is appended and users, posts and all other rows are unchanged; sender == receiver is not refused |
| Connections.AcceptRequest | services/business.py:128-144 | refused with NotFound exactly when no pending row goes sender→receiver; otherwise one such row has its status set to accepted and every other row, user and post is unchanged |
| Connections.AreConnected | services/business.py:146-156 | true exactly when an accepted row links the two users, in either direction; symmetric in its two arguments |
| Connections.IsPending | services/business.py:158-166 | true exactly when a pending row goes from sender to receiver; the reverse direction is not consulted |
| Connections.ConnectedIds | services/business.py:59-67 | the union of receivers of accepted rows sent by the user and senders of accepted rows received by the user is exactly the set of ids with an accepted row to or from the user |
| Connections.GetConnections | services/business.py:168-187 | a user is listed exactly when stored and connected to the given user (agrees with AreConnected); no user is listed twice; pending rows contribute nothing |
| Connections.SendPreservesValid | services/business.py:107-126 | a successful send keeps at most one row per unordered pair, unique ids and no rejected rows |
| Connections.AcceptPreservesValid | services/business.py:130-142 | a successful accept only edits one status, so the same invariant holds afterwards |
| Connections.AcceptFailures | services/business.py:130-137 | on a valid store, accept fails when there is no row, when only the reverse-direction row exists, or when the sender→receiver row is already accepted |
| Connections.SecondSendRefused | services/business.py:107-115 | after a successful send from a to b, sending again from a to b or from b to a is refused |
| Connections.PendingIsDirected | services/business.py:130-134 | after a send from a to b (a ≠ b) the request is pending a→b but not b→a, and accepting it with the roles swapped fails with NotFound |
| Connections.SendThenAccept | services/business.py:104-156 | a send followed by the receiver's accept succeeds and leaves the pair connected in both directions with nothing pending sender→receiver |
| Connections.SendKeepsConnections | services/business.py:168-187 | a send changes no user's connected ids or connection list |
| Directory.AsciiLower | services/business.py:50-52 | SQLite `lower()` on one character: `A`..`Z` move to `a`..`z`, every other character is kept |
| Directory.Lower | services/business.py:50-52 | SQLite `lower()` on a column: same length, each character lower-cased as above |
| Directory.Contains | services/business.py:50-52 | the `LIKE '%q%'` test, searching position by position, holds exactly when the pattern occurs at some position of the text |
| Directory.UserMatches | services/business.py:48-53 | the `or_` of the three `ilike` tests holds exactly when the lower-cased query occurs in the lower-cased first name, last name or headline |
| Directory.SearchUsers | services/business.py:46-54 | at most limit stored users, each containing the query case-insensitively in a name or the headline; when fewer than limit are returned every matching user is among them; no stored user is returned more often than it is stored |
| Directory.SuggestedConnections | services/business.py:56-72 | at most limit stored users, never the user themself and never anyone with an accepted row to or from them; when fewer than limit are returned every such user is among them; no stored user is returned more often than it is stored |
| Directory.SendKeepsSuggestions | services/business.py:59-72 | a send, which only adds a pending row, changes nobody's suggestions |
| Directory.PendingStillSuggested | services/business.py:56-72 | a user with only a pending request from a is still suggested to a unless the list is full |
| Feed.Insert | services/business.py:92 | the result holds exactly the input posts plus the inserted one, each as often as before |
| Feed.InsertNewestFirst | services/business.py:92 | inserting into a newest-first list keeps it newest first |
| Feed.SortNewestFirst | services/business.py:92 | the sorted list is newest first and a permutation of the input |
| Feed.TakeKeepsNewest | services/business.py:92 | cutting a newest-first list after n posts keeps exactly n and drops nothing newer than a kept post |
| Feed.RecentPosts | services/business.py:90-92 | newest first, min(limit, number of posts) stored posts; a post left out is no newer than any returned post |
| Feed.PostsOf | services/business.py:96-97 | exactly the stored posts whose author is the user |
| Feed.PostsByUser | services/business.py:94-98 | newest first, at most limit, every post by the user; a post by the user that is left out is no newer than any returned post and the list is full |
| Feed.CreatePost | services/business.py:78-88 | appends one post with the given author, content and timestamp under a fresh id; users and connections unchanged; nothing is refused |
| Feed.NewestHeads | services/business.py:90-98 | a newest-first selection from the stored posts plus one strictly newer post, which keeps everything newer than what it drops, starts with that post |
| Feed.NewPostHeadsFeed | services/business.py:78-98 | a post created later than every stored post is first in the recent feed and first among its author's posts, for any positive limit |
| TimeAgo.DigitsRoundTrip | core/utils.py:45 | the decimal numeral of a count reads back as that count |
| TimeAgo.ParseRender | core/utils.py:44-53 | each of the four phrase forms reads back as the form and count it was written from |
| TimeAgo.FormatTimeAgo | core/utils.py:37-53 | the result is exactly the rendering of one phrase form and count (so the numeral has no leading zeros); positive days give days whatever the seconds; otherwise over 3600 s gives hours in 1..23, over 60 s gives minutes in 1..60, else "Just now"; the days form appears exactly when days > 0 |
| TimeAgo.Boundaries | core/utils.py:46-53 | with no whole days, exactly 3600 s is the string "60m ago", exactly 60 s is "Just now", and 3601 s is "1h ago" |
| TimeAgo.FutureSecondReadsAsHours | core/utils.py:42-48 | a timestamp one second in the future (-1 days, 86399 s) is the string "23h ago" |
| TimeAgo.FormatTimeAgoClamped | core/utils.py:42-53 | future ages read "Just now"; other ages read as before |
| HtmlEscape.EscapeChar | static/js/main.js:158-164 | each special character becomes an entity from `&` to `;`, every other character is itself, and no replacement contains `<`, `>`, `"` or `'` |
| HtmlEscape.Escape | static/js/main.js:157-166 | the output is no shorter than the input and contains no `<`, `>`, `"` or `'` |
| HtmlEscape.EscapeConcat | static/js/main.js:165 | escaping a concatenation is the concatenation of the escapings |
| HtmlEscape.EscapePlain | static/js/main.js:165 | text without special characters is returned unchanged |
| HtmlEscape.EscapeLength | static/js/main.js:158-165 | output length is input length plus 4 per `&`, 3 per `<` and `>`, 5 per `"` and `'` |
| HtmlEscape.UnescapeChar | static/js/main.js:158-164 | reading back one escaped character followed by any text yields that character |
| HtmlEscape.UnescapeEscape | static/js/main.js:157-166 | the input, every character in order, is recovered from its escaping |
| Scenarios.SoleConnection | services/business.py:168-187 | when exactly one stored user is connected to a user, the connection list is exactly that user |
| Scenarios.FirstRequestAccepted | services/business.py:104-144 | on an empty connection table, a→b is stored pending with id 1 and the accept turns it accepted |
| Scenarios.SecondRequestSent | services/business.py:104-126 | a further request a→c is stored pending with id 2 |
| Scenarios.WaitingPairs | services/business.py:146-166 | with a→b accepted and a→c pending: a→c is pending and not a connection, a and b are connected, and a is not connected to itself |
| Scenarios.WaitingSuggestions | services/business.py:56-72 | with a→b accepted and a→c pending: b is not suggested to a, and c is |
| Scenarios.WaitingConnections | services/business.py:168-187 | with a→b accepted and a→c pending: a's connections are exactly b |
| Scenarios.ThreeUserScenario | services/business.py:56-187 | the send, accept, send sequence on three users composes as the previous rows state |

## Left out

- `app/main.py` (routing, sessions, templates, tokens, the swallowing of
  connection errors by the routes): presentation layer, not part of this model.
- `UserService.create_user`, `get_user_by_email`, `get_user_by_id`,
  `authenticate_user`: they rest on password hashing in `core/security`,
  which is not part of this model, or are single-key lookups with no logic.
- `core/database.py` engine, sessions and `init_db`, `models/schemas.py`,
  `app/config.py`: I/O, declarations and settings. The column declarations
  shape the datatypes; only the columns the services read are kept.
- Timestamps other than a post's creation time (`updated_at`, the accept's
  `datetime.utcnow()` stamp, user and connection `created_at`): not read by
  any modelled query. Post creation time is an integer parameter `now`.
- `format_time_ago` reads the clock itself; the model takes the difference
  already normalised as (days, seconds in 0..86399), the form a Python time
  difference has.
- `save_upload_file`, `resize_image`: filesystem, UUID and image work.
- `static/js/main.js` apart from `escapeHtml`: DOM, timers and layout.
  JavaScript strings are modelled as sequences of characters.
- SQL specifics: `%` and `_` inside the search query are wildcards for LIKE
  but are taken literally here; case folding is ASCII-only, as SQLite's
  `lower()` does it; the headline is never NULL (user creation stores `""`).
- Ordering the database leaves unspecified (search and suggestion order,
  the order of `UNION` results, ties on creation time) is modelled as table
  order, and ties are kept in table order by the sort.
- Limits are natural numbers; a negative limit (which SQLite reads as "no
  limit") is not modelled.
- Concurrency: every call is one sequential transaction; races between two
  sends for the same pair are not modelled.
- The `rejected` status is declared but no operation produces it.

## Findings

| source | as written | input that shows it | evidently intended | confidence | as-written member | corrected member |
|---|---|---|---|---|---|---|
| core/utils.py:42-53 | a negative day count falls through to the seconds branches | a timestamp one second in the future: days = -1, seconds = 86399, rendered "23h ago" | a timestamp in the future reads "Just now" | medium, not executed | TimeAgo.FutureSecondReadsAsHours | TimeAgo.FormatTimeAgoClamped |
