# vatsuoK blog: accounts, admin gating, inbox and post helpers in Dafny

The application is a small Flask/SQLAlchemy site with a blog, a project
portfolio and a contact form. Its state is four tables: users, blog posts,
projects and contact messages. This model keeps them as maps from row id to
record, and takes the acting principal as an optional user id, the id the
session remembers.

- **Accounts.**
  - The first account ever created is approved and admin. Every later one is
    neither and waits for an admin's approval.
  - Only approved accounts whose password matches get a session. Admins are
    sent to the dashboard and everyone else to the blog list.
  - An admin can approve an account, flip its admin flag, or delete it. An
    admin cannot delete their own account or one that still authors posts.
- **Admin gating.** Every mutating route except signup and the contact
  form begins the same way. With no live
  session, the user is sent to sign in. With a session that is not an
  admin's, the request is refused with a redirect that depends on the route.
  In both cases nothing changes.
- **Contact inbox.**
  - Anyone may submit a message. It starts unread and not responded to.
  - An admin marks it read, marks it responded, or deletes it.
  - The dashboard counts pending accounts and unread messages.
- **Post and project helpers.**
  - Reading time is `max(1, round(words / 200))`, with Python's
    round-half-to-even, in integers.
  - Related posts are at most three others of the same category.
  - Search is a substring match on title, content or tags. An empty query
    finds nothing.
  - The technology list of a project is its comma split, each piece stripped.
  - `addpost` appends a fenced code block to the content.

Modules:

- `Records` (records.dfy): the tables, the outcomes, the admin gate, row-id
  allocation and the database invariant. The invariant is that usernames are
  unique and every post's author names an existing account.
- `Text` (text.dfy): `str.split()`, `str.strip()`, `str.split(',')` and the
  substring test.
- `Content` (content.dfy): posts, the code block, reading time, related posts
  and search.
- `Identity` (identity.dfy): signup, signin, approve, toggle admin and delete
  user.
- `Portfolio` (portfolio.dfy): projects.
- `Inbox` (inbox.dfy): contact messages.
- `Dashboard` (dashboard.dfy): the admin dashboard's figures.
- `Routes` (routes.dfy): all mutating requests dispatched together, with the
  properties that hold across them.
- `Site` (site.dfy): the class `App`. It holds the four tables as mutable map
  fields. It has one method per state-changing handler, plus `Signin` and
  `AdminDashboard`, which only read the tables. Each method is proved equal
  to its handler function, and the state-changing ones keep the invariant.
  The post page, search and the project page are pure functions only
  (`Content.ViewPost`, `Content.Search`, `Portfolio.ProjectTechnologies`).

Each state-changing handler is a function from the database, the principal
and the request fields to a `Step`: the new database and an `Outcome`.
Signup and the contact form take no principal. Sign-in returns a `Login`,
the dashboard a `Page`, and the post page, search and project page their
result. The outcome stands
for the flash message and redirect. It is `Ok(target)`,
`AccessDenied(target)`, `LoginRequired`, `NotFound`, `PendingApproval`,
`InvalidCredentials`, `CannotDeleteSelf`, `HasPosts(n)` or
`DuplicateUsername`.

New rows get the id SQLite gives an `INTEGER PRIMARY KEY` row: one more than
the largest id in use, or 1 in an empty table (`NextId`).

Passwords are abstract. A stored credential remembers the password it was
made from, and checking compares against it.

Timestamps, and the file name of an uploaded image, are parameters supplied
by the caller.

## Model

| member | source | states |
|---|---|---|
| Records.Gate | app.py:95-99 | The admin check every admin route starts with (every mutating route except signup and the contact form). The handler proceeds exactly when the principal is a live admin. It gives LoginRequired exactly when there is no live session, and AccessDenied(target) exactly for a signed-in non-admin. |
| Records.NextId | app.py:27 | A new row's id is the smallest that exceeds every id in use and is 1 or follows an id in use; it is never an id in use. |
| Records.NextIdUnique | app.py:27 | At most one id satisfies that description, so it is the one NextId picks. |
| Records.Select | app.py:355 | A filtered query returns exactly the scanned ids the filter accepts, and never more rows than it scans. |
| Records.SelectConcat | app.py:355 | The query keeps the scan's order: filtering a scan in two parts gives the first part's rows, then the second's. |
| Text.WordEnd | app.py:351 | The first word of a string ends at the first whitespace character. It is non-empty when the string starts with a non-space. |
| Text.Words | app.py:351 | `str.split()`: every word is non-empty and free of whitespace. |
| Text.WordCount | app.py:351 | `len(s.split())` is the number of positions where a non-space character begins the string or follows whitespace. |
| Text.WordsStartsIn | app.py:351 | Counted along the string, `str.split()` yields one word for each such word start. |
| Text.StartsInIsSize | app.py:351 | That running count from a position on equals the number of word-start positions from there on. |
| Text.WordsOfJoin | app.py:351 | Splitting words joined by single spaces gives the words back. |
| Text.TrimLeft | app.py:106 | Strips leading whitespace: the result is no longer than the input and is empty or starts with a non-space. |
| Text.TrimRight | app.py:106 | Strips trailing whitespace: the result is no longer than the input and is empty or ends with a non-space. |
| Text.TrimLeftDropsSpace | app.py:106 | What TrimLeft keeps is a suffix of the input, and what it drops is whitespace only. |
| Text.TrimRightDropsSpace | app.py:106 | What TrimRight keeps is a prefix of the input, and what it drops is whitespace only. |
| Text.Strip | app.py:106 | `str.strip()`: the result is empty or starts and ends with a non-space. |
| Text.StripIsSlice | app.py:369 | The stripped string is a slice of the input with only whitespace cut off on each side. |
| Text.StripIdempotent | app.py:369 | Stripping twice is stripping once. |
| Text.Split | app.py:369 | `str.split(',')` gives at least one piece, and no piece holds the separator. |
| Text.JoinSplit | app.py:369 | Joining the pieces with the separator gives back the string. |
| Text.SplitJoin | app.py:369 | Splitting separator-free pieces joined by the separator gives back the pieces. |
| Text.Contains | app.py:464-466 | The empty query is contained in every string, and a contained query is never longer than the string. |
| Text.ContainsIff | app.py:464-466 | The substring test holds exactly when the query occurs at some position of the string. |
| Content.WithCode | app.py:106-109 | The stored content extends the submitted content, and differs from it exactly when the stripped code (default empty) is non-empty. |
| Content.CodeBlock | app.py:109 | The appended block opens with the new line and `<pre><code class="language-` and closes with `</code></pre>`, around the language, the `">` and the code. |
| Content.IndexOf | app.py:109 | Finds the first occurrence of a character, or reports that it is absent. |
| Content.CodeBlockRoundTrip | app.py:109 | A code block whose language has no quote parses back to that language and code. |
| Content.AppendedCodeReadsBack | app.py:106-109 | What addpost appends after the content parses back to the chosen language (default `python`) and the stripped code. |
| Content.ReadingTime | app.py:351-352 | The post page's reading time: at least 1, and equal to ReadingMinutes of the number of word starts in the content. |
| Content.RoundDiv200 | app.py:352 | `round(n / 200)`: within one half of n/200, and an exact half goes to the even neighbour. |
| Content.ReadingMinutes | app.py:352 | `max(1, round(n / 200))`: at least 1, and the rounded quotient whenever that is at least 1. |
| Content.ReadingTimeOfWords | app.py:351-352 | The reading time of content made of n words is the reading time of n words. |
| Content.RoundStep | app.py:352 | The rounded quotient never drops when one word is added. |
| Content.ReadingMinutesMonotone | app.py:352 | More words never give a shorter reading time. |
| Content.ReadingMinutesTies | app.py:352 | Half-way word counts round to even: 300 and 500 words read in 2 minutes, 700 in 4, and 100 or 299 words in 1. |
| Content.ViewPost | app.py:347-357 | The post page is a 404 exactly for a missing id. Otherwise it shows the post and ReadingTime of its content. It lists at most three related posts, all existing, of the post's category, and none is the post itself. |
| Content.SelectCount | app.py:355 | On a duplicate-free order, the filtered query returns as many rows as the filter accepts. |
| Content.RelatedCount | app.py:355 | With n other posts in the category, the page shows exactly those n posts when n is at most 3, and 3 of them otherwise. |
| Content.Matches | app.py:464-466 | The empty query matches every post, and a matching query is no longer than the title, the content or the tags. |
| Content.Search | app.py:457-472 | An empty query finds nothing. A non-empty one returns exactly the listed posts whose title, content or tags contain it. |
| Content.SearchExact | app.py:459-470 | A non-empty query finds exactly the posts of the table in whose title, content or tags it occurs as a slice. |
| Content.AddPost | app.py:94-122 | A non-admin gets the gate's refusal and nothing changes. An admin adds one new post at the next id: written by the admin, dated now, with the code block appended, category default `General`, tags default empty, and the uploaded image if any. Only the blog table changes. |
| Content.UpdatePost | app.py:125-155 | A non-admin gets the gate's refusal and nothing changes. For an admin, only that post changes: every field is overwritten, the author becomes the admin and the date now, and the image changes only if a file came. |
| Content.DeletePost | app.py:159-168 | A non-admin gets the gate's refusal and nothing changes. An admin removes exactly that post. |
| Identity.Signup | app.py:193-209 | A taken username is refused and nothing changes. Otherwise one user is added at the next id, approved and admin exactly when the user table was empty, and the redirect goes to sign-in. |
| Identity.FirstSignupIsAdmin | app.py:200-201 | On an empty user table the new account is user 1, approved and admin. |
| Identity.LaterSignupIsPending | app.py:200-201 | Every later account gets an id other than 1 and is neither approved nor admin. |
| Identity.SignupKeepsBootstrapShape | app.py:200-203 | A signup keeps the shape "user 1 approved and admin, every other user neither" and never changes user 1. |
| Identity.OnlyFirstSignupIsAdmin | app.py:200-203 | Over any run of signups from an empty table, the first requester becomes user 1, and only user 1 is approved or admin. |
| Identity.FirstUserStays | app.py:200-203 | Later signups never change user 1. |
| Identity.FindUser | app.py:177 | The username lookup finds an account exactly when the name is taken, and the account it finds carries that name. |
| Identity.FindUserUnique | app.py:177 | With unique usernames, the lookup of an account's name finds that account. |
| Identity.Signin | app.py:171-190 | A session opens exactly when an approved account with that name and password exists. It is that account's session, and the redirect is the dashboard for an admin and the blog list otherwise. InvalidCredentials comes exactly when no account matches name and password. PendingApproval comes exactly when one matches but no session opens. |
| Identity.UnapprovedNeverSignsIn | app.py:179-187 | An unapproved account never gets a session, whatever the password. |
| Identity.ApproveUser | app.py:264-275 | A non-admin gets the gate's refusal (to home) and nothing changes. A missing id gives NotFound. Otherwise only that account changes, and its approved flag becomes true. |
| Identity.ApproveIdempotent | app.py:270-271 | Approving twice is approving once. |
| Identity.ToggleAdmin | app.py:277-288 | A non-admin gets the gate's refusal and nothing changes. A missing id gives NotFound. Otherwise only that account changes, and its admin flag is negated. There is no self-check and no approval check. |
| Identity.ToggleTwiceRestores | app.py:283-284 | Toggling another account twice restores the database. |
| Identity.SelfToggleDemotes | app.py:277-288 | An admin who toggles their own flag loses admin rights, and a second toggle by them is refused. |
| Identity.ToggleIgnoresApproval | app.py:283-284 | An unapproved account can be made admin, and it still cannot sign in. |
| Identity.DeleteUser | app.py:290-308 | In order: a non-admin gets the gate's refusal, the admin's own id gives CannotDeleteSelf before any lookup, a missing id gives NotFound, and an author of n posts gives HasPosts(n). The deletion happens exactly when none applies and removes exactly that account. Every refusal leaves the database unchanged. |
| Identity.PostCount | app.py:301 | The number of posts by a user is zero exactly when no post names the user as author. |
| Identity.AuthorHasPosts | app.py:301-302 | A user who authors some post has a positive post count. |
| Identity.SigninWithPassword | app.py:171-190 | Signing in to an account with its own password gives PendingApproval while it is unapproved. Once approved it opens a session for that account, landing on the dashboard for an admin and on the blog list otherwise. |
| Identity.TwoSignups | app.py:193-209 | On an empty database, the first signup becomes user 1, approved and admin. A second signup with another name becomes user 2, neither. |
| Identity.ApprovalScenario | app.py:171-275 | A signs up and is admin, and B signs up and is pending. B's sign-in gives PendingApproval until A approves B. Then B reaches the blog list, and A reaches the dashboard. |
| Portfolio.AddProject | app.py:372-408 | A non-admin gets the gate's refusal (to projects) and nothing changes. An admin adds one project at the next id, with the optional fields defaulting to empty, the featured flag, the uploaded image if any and the creation time now. Only the project table changes. |
| Portfolio.UpdateProject | app.py:412-439 | A non-admin gets the gate's refusal and nothing changes. A missing id gives NotFound. Otherwise only that project changes: every form field is overwritten, the image changes only if a file came, and the creation date stays. The redirect goes to the project's page. |
| Portfolio.DeleteProject | app.py:443-454 | A non-admin gets the gate's refusal and nothing changes. A missing id gives NotFound. Otherwise exactly that project is removed. |
| Portfolio.Technologies | app.py:369 | The list is empty exactly for an empty string. Otherwise entry i is the i-th comma-separated piece, stripped, and every entry is empty or starts and ends with a non-space. |
| Portfolio.TechnologiesRoundTrip | app.py:369 | A non-trivial list of stripped, comma-free names written out with commas reads back as the same list. |
| Portfolio.ProjectTechnologies | app.py:366-370 | The project page is a 404 exactly for a missing id. Otherwise its technology list is Technologies of the stored string, empty exactly when that string is. |
| Inbox.SubmitContact | app.py:475-491 | Anyone may submit: one message is added at the next id, unread, not responded to and stamped now. Only the contact table changes. |
| Inbox.MarkContactRead | app.py:311-321 | A non-admin gets the gate's refusal and nothing changes. A missing id gives NotFound. Otherwise only that message changes, and its read flag becomes true. |
| Inbox.MarkContactResponded | app.py:323-333 | Like MarkContactRead, for the responded flag only; the read flag is left alone. |
| Inbox.DeleteContact | app.py:335-345 | A non-admin gets the gate's refusal and nothing changes. A missing id gives NotFound. Otherwise exactly that message is removed. |
| Inbox.ReadAndRespondedCommute | app.py:318-330 | Marking read and marking responded give the same database in either order. |
| Inbox.MarkReadIdempotent | app.py:318 | Marking read twice is marking read once. |
| Dashboard.PendingCount | app.py:252 | The pending figure never exceeds the number of accounts. |
| Dashboard.UnreadCount | app.py:254 | The unread figure never exceeds the number of messages. |
| Dashboard.AdminDashboard | app.py:237-262 | Only a live admin sees the figures; others get the gate's refusal (to the blog list). The totals are the table sizes. Pending is the number of unapproved accounts and unread the number of unread messages, each bounded by its total. |
| Dashboard.SubsetCard | app.py:251-254 | A subset is never larger than its superset. |
| Dashboard.ApproveLowersPending | app.py:271 | Approving a pending account lowers the pending figure by one. Approving an approved one leaves the figure unchanged. |
| Dashboard.MarkReadLowersUnread | app.py:318 | Marking an unread message read lowers the unread figure by one. |
| Dashboard.SubmitRaisesUnread | app.py:484-491 | A new message raises both the message count and the unread figure by one. |
| Routes.DeniedTarget | app.py:97-99 | A refused non-admin is sent to the blog list exactly from the post routes, to the projects page exactly from the project routes, and home otherwise. |
| Routes.NonAdminChangesNothing | app.py:267-269 | Through any admin route, a principal who is not a live admin changes no table. They get LoginRequired without a session, and AccessDenied(the route's target) with one. |
| Routes.AccountsStable | app.py:264-308 | No request renames an account or withdraws its approval. |
| Routes.AuthorsKept | app.py:296-306 | If every account some post names survives under its name, and posts are only kept or removed, every author still exists. |
| Routes.SignupKeepsValid | app.py:60 | A signup keeps usernames unique and every author an account. |
| Routes.PostWriteKeepsValid | app.py:102 | Adding or updating a post as the acting admin keeps every author an account. |
| Routes.DeleteUserKeepsValid | app.py:301-306 | Deleting an account keeps every author an account, because authors of posts are refused. |
| Routes.Handle | app.py:94-491 | Dispatches a mutating request to its handler. A request that does not succeed leaves the database unchanged. |
| Routes.HandleKeepsValid | app.py:94-491 | Every mutating request keeps usernames unique and every post's author an existing account. |
| Site.NewId | app.py:27 | The id the storage engine hands out, computed by a scan for the largest id in use, is NextId. |
| Site.FindByName | app.py:177 | The lookup by username returns an account carrying that name, or nothing exactly when the name is free. |
| Site.CountPosts | app.py:301 | Counting the posts by an author gives PostCount. |
| Site.AddPostStores | app.py:94-122 | The admin branch of addpost stores the post at the next id and keeps the invariant. |
| Site.App.constructor | app.py:26-63 | A fresh database has four empty tables and satisfies the invariant. |
| Site.App.Signup | app.py:193-209 | Updates the user table in place as Identity.Signup says, and keeps the invariant. |
| Site.App.Signin | app.py:171-190 | Reads the tables only, and returns what Identity.Signin says. |
| Site.App.ApproveUser | app.py:264-275 | Updates the account in place as Identity.ApproveUser says, and keeps the invariant. |
| Site.App.ToggleAdmin | app.py:277-288 | Updates the account in place as Identity.ToggleAdmin says, and keeps the invariant. |
| Site.App.DeleteUser | app.py:290-308 | Counts the target's posts, then removes the account as Identity.DeleteUser says, and keeps the invariant. |
| Site.App.AddPost | app.py:94-122 | Adds the post in place as Content.AddPost says, and keeps the invariant. |
| Site.App.UpdatePost | app.py:125-155 | Overwrites the post in place as Content.UpdatePost says, and keeps the invariant. |
| Site.App.DeletePost | app.py:159-168 | Removes the post as Content.DeletePost says, and keeps the invariant. |
| Site.App.SubmitContact | app.py:475-491 | Adds the message as Inbox.SubmitContact says, and keeps the invariant. |
| Site.App.MarkContactRead | app.py:311-321 | Sets the flag in place as Inbox.MarkContactRead says, and keeps the invariant. |
| Site.App.MarkContactResponded | app.py:323-333 | Sets the flag in place as Inbox.MarkContactResponded says, and keeps the invariant. |
| Site.App.DeleteContact | app.py:335-345 | Removes the message as Inbox.DeleteContact says, and keeps the invariant. |
| Site.App.AdminDashboard | app.py:237-262 | Reads the tables only, and returns what Dashboard.AdminDashboard says, with pending and unread bounded by their totals. |
| Site.App.AddProject | app.py:372-408 | Adds the project as Portfolio.AddProject says, and keeps the invariant. |
| Site.App.UpdateProject | app.py:412-439 | Overwrites the project in place as Portfolio.UpdateProject says, and keeps the invariant. |
| Site.App.DeleteProject | app.py:443-454 | Removes the project as Portfolio.DeleteProject says, and keeps the invariant. |

## Left out

- Rendering is not modelled: templates, flash texts and `url_for`. The outcome enum stands for each redirect and its message.
- GET requests that only render a form or a listing are not modelled: `home`, `about`, `services`, `blog_list`, `projects`, and the GET branches of the form routes. `logout` is left out too; it only ends the session.
- The order of listings is not modelled: the dashboard's users and messages, `blog_list` by date and `projects` with its featured list. Where a result is a list (related posts, search), the storage order is an explicit parameter.
- Session machinery is not modelled. The principal is a parameter. A principal whose account was deleted counts as anonymous, because the user loader finds no row.
- Password hashing is not modelled. The credential is abstract and matches exactly the password it was made from.
- File uploads are not modelled: `secure_filename` and `file.save`. The handler receives the stored file name, or none when no file came.
- Clocks are not modelled: `datetime.now` and `datetime.utcnow` become a caller-supplied integer time.
- A required form field that is missing (`request.form[...]` at app.py:101, 103, 132, 134, 174-175, 196-197, 380-383, 422-425 and 478-481) makes Flask answer 400 with no change. The model's request records always carry those fields, so that path is not modelled.
- Content.UpdatePost and Content.DeletePost require an admin caller to name an existing post. Both handlers look the post up with `first()` instead of `get_or_404`, so a missing id raises inside the handler. The model does not describe that failure.
- Site.App.UpdatePost and Site.App.DeletePost carry the same precondition as the handler functions they implement, for the same reason.
- Identity.Signup: the source never checks for a taken username. The unique column rejects the insert, which raises. The model reports this as `DuplicateUsername` with no change. The race between the user count and the insert is not modelled.
- Content.Search uses plain substring containment. SQLite's case-insensitive `LIKE`, and the `%` and `_` wildcards in the query, are not modelled.
- Content.ReadingMinutes rounds exactly. The source divides in floating point, which rounds the same way for any word count a post can hold, but would lose exactness for counts beyond 2^53.
- NextId does not model the 2^63 row-id ceiling of SQLite, or the random id search beyond it.
- Inbox.SubmitContact does not model the branch that answers an XMLHttpRequest with JSON. It changes only the response, not the stored message.
- `toggle_admin` checks neither that the target is approved nor that it is not the acting admin, and the model follows the code (see Identity.ToggleIgnoresApproval and Identity.SelfToggleDemotes).
- The startup block (`db.create_all()` under `__main__`, screen clearing, debug prints) is not modelled beyond the empty database of Site.App.constructor.
