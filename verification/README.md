# Event booking core, modelled in Dafny

This project models the core of a campus event-booking server. A student
proposes an event: a title, a group, a venue and a time window. The server
flags a scheduling conflict when a pending or approved booking of the same
venue overlaps the window. An administrator then approves or declines the
request. The model covers:

- the venue conflict detector `hasVenueConflict` (half-open window overlap
  against submitted and approved events of the same venue);
- the event routes as pure transitions over an in-memory store: create,
  attach files, submit, decide (approve/decline), edit, delete with its
  cascade, and the approved, inbox and own-events listings;
- the authorization guards `requireRole` and `isAdmin`, and the
  creator-or-admin rule shared by edit and delete;
- the magic-link sign-in: issuing a token valid for fifteen minutes and
  consuming it once; and the superadmin route that sets a user's role.

The store is three maps: events, attachments and event-service rows.
Their keys come from one counter. Every route takes the store and the
acting user. It answers `Done(store', body)` or `Failed(error)`, with the
errors `BadRequest`, `Forbidden`, `NotFound` and `Unhandled`. A failure
carries no store, so a refused request changes nothing. Time is an integer
count of milliseconds. The random token and the clock are parameters.

Modules: `Base` (options, ids, errors), `Authz` (roles and guards),
`Schema` (rows and the store), `Conflict` (the detector), `Lifecycle`
(the mutating routes), `Listings` (the read routes) and `MagicLink`
(src/auth.js and the user-role route).

## Model

| member | source | states |
|---|---|---|
| Authz.RoleOf | src/server.js:92-98 | a stored role string is read as one of the three named roles exactly when it spells one; any other string is kept as Other |
| Authz.RoleNameRoundTrip | src/server.js:92-98 | writing a role and reading it back gives the same role |
| Authz.RoleOfRoundTrip | src/server.js:92-98 | reading any stored string and writing it back gives the same string |
| Authz.RequireRoleMatchesStringCheck | src/server.js:53-59 | for a role in canonical form and a list of non-empty role names, checking the role against the listed roles gives the same answer as the server's string test (the role name must be non-empty and listed, otherwise Forbidden) |
| Authz.RequireSuperadmin | src/server.js:86-91 | user, group and venue administration passes only for superadmin, and whoever passes it is also an admin; anyone else gets Forbidden |
| Authz.AdminIsNotSuperadmin | src/server.js:60 | a plain admin counts as admin for isAdmin but is refused by requireRole('superadmin') |
| Authz.OnlyNamedRolesAreAdmin | src/server.js:60 | isAdmin holds exactly for the roles spelled "admin" and "superadmin" |
| Lifecycle.InsertServices | src/server.js:192-198 | one service row per requested service, keyed consecutively in request order, for the given event, with a falsy note stored as null; no other key is added and rows below the first new key are kept |
| Conflict.FindOverlapping | src/server.js:154-164 | the store lookup returns an event exactly when some event blocks the window: same venue, status submitted or approved, `startsAt < end` and `endsAt > start`; what it returns is such an event |
| Conflict.BackToBackNeverBlocks | src/server.js:155-160 | a booking that ends where the window starts, or starts where it ends, never conflicts |
| Conflict.BlocksSymmetric | src/server.js:155 | between two active events, A conflicts with B's window exactly when B conflicts with A's |
| Conflict.InactiveNeverCounts | src/server.js:159 | a draft or declined event never affects the detector: storing it gives the same answer as leaving it out |
| Conflict.RemovalOnlyClears | src/server.js:156-163 | removing an event from the store can clear a conflict but never create one |
| Conflict.WiderWindowKeepsConflict | src/server.js:160 | a conflict found for a window is also found for every window containing it |
| Lifecycle.ApprovalLocksOutCreator | src/server.js:267-268 | a non-admin may not modify an approved event, an admin may modify any event, and a creator may modify their own draft, submitted or declined event |
| Lifecycle.Create | src/server.js:167-200 | a missing title, group, venue, start or end gives BadRequest; otherwise exactly one event is added under a fresh key, as a private draft owned by the actor, with conflict equal to the detector's answer on the store before the insert, attendance defaulting to 0, no start-before-end check, plus one service row per requested service, in order, for that event; no existing row changes |
| Lifecycle.AddAttachments | src/server.js:202-216 | only the creator may attach, and anyone else or an absent event gets NotFound; one attachment row per file, in order, for that event, under the next free keys and nowhere else; existing attachment rows, events and service rows are unchanged |
| Lifecycle.Submit | src/server.js:218-226 | an absent event or a non-creator gets NotFound; otherwise only that event changes: status becomes submitted and conflict becomes the detector's answer over the whole store, whatever the previous status |
| Lifecycle.FirstSubmissionIgnoresSelf | src/server.js:223 | submitting a draft or declined event computes its conflict as if the event were not stored |
| Lifecycle.ResubmitFlagsSelfConflict | src/server.js:221-224 | resubmitting a submitted or approved event with a non-empty window always flags a conflict, because the event overlaps itself |
| Lifecycle.SubmitReopensApproved | src/server.js:221-224 | the creator can move an approved event back to submitted, and it stays public |
| Lifecycle.Decide | src/server.js:249-259 | a non-admin gets Forbidden; a decision other than "approved" or "declined" gets BadRequest; an absent event makes the store throw; otherwise only that event's status becomes the decision, and visibility becomes public exactly when it is approved, from any previous status |
| Lifecycle.DecisionAlignsVisibility | src/server.js:256 | after a decision the event is public exactly when it is approved |
| Lifecycle.LastDecisionWins | src/server.js:254-257 | two decisions in a row leave the store as the second one alone would |
| Lifecycle.DeclinedStaysEditable | src/server.js:249-269 | a declined event becomes private, and its creator may still edit or delete it |
| Lifecycle.VenueScenario | src/server.js:218-226 | with 10-12 approved in a venue, a submission for 11-13 is flagged but still submitted, and one for 12-13 is not flagged |
| Lifecycle.ApplyEdit | src/server.js:271-284 | each supplied field replaces the stored one and every absent field keeps its value; attendance becomes the given value when it is a JSON number and keeps its value otherwise; status, conflict, creator and creation time never change |
| Lifecycle.Edit | src/server.js:262-286 | an absent event gets NotFound; the edit succeeds exactly when the actor is an admin, or is the creator and the event is not approved, and otherwise answers Forbidden; on success only that event changes |
| Lifecycle.EmptyEditChangesNothing | src/server.js:271-284 | an edit that supplies no field leaves the store exactly as it was |
| Lifecycle.EditLeavesConflictStale | src/server.js:272-284 | moving a draft onto an approved booking's venue and window leaves its conflict flag false |
| Lifecycle.EditCanPublishDraft | src/server.js:267-282 | a creator can make their own draft public through an edit, without any decision |
| Lifecycle.Delete | src/server.js:289-302 | same permission rule and errors as edit; on success the event is removed together with exactly the attachments and service rows that point at it, and all other rows are unchanged |
| Lifecycle.DeleteUndoesInsert | src/server.js:298-300 | deleting an event just inserted into a valid store, together with its own service rows, gives back the original tables |
| Lifecycle.CreateThenDeleteRestores | src/server.js:289-302 | a creation followed by its creator's deletion leaves every table of a valid store as it was |
| Lifecycle.CreatePreservesValid | src/server.js:176-198 | create keeps keys fresh, and the new service rows point at an existing event |
| Lifecycle.AddAttachmentsPreservesValid | src/server.js:208-214 | attaching keeps keys fresh, and attachments point at existing events |
| Lifecycle.SubmitPreservesValid | src/server.js:224 | submit keeps the store invariant |
| Lifecycle.DecidePreservesValid | src/server.js:254-257 | a decision keeps the store invariant |
| Lifecycle.EditPreservesValid | src/server.js:272-284 | an edit keeps the store invariant |
| Lifecycle.DeletePreservesValid | src/server.js:298-300 | the cascade leaves no attachment or service row pointing at a deleted event |
| Listings.InsertionPoint | src/server.js:309 | the new row goes after every row with a smaller key and before the first row whose key is not smaller |
| Listings.Query | src/server.js:306-310 | the query returns every stored event that passes the filter and nothing else, each once, under its own key, sorted by the order key |
| Listings.ApprovedEvents | src/server.js:305-312 | exactly the approved events, each once, with the earliest start first |
| Listings.Inbox | src/server.js:238-246 | a non-admin gets Forbidden; an admin gets exactly the submitted events, each once, oldest creation first |
| Listings.MyEvents | src/server.js:229-236 | exactly the events the actor created, in any status, each once, newest creation first |
| Listings.ApprovedListExcludesOthers | src/server.js:307 | a draft, submitted or declined event never appears in the approved list |
| Listings.ListingsAgree | src/server.js:306-310 | two listings of the same store with the same filter list the same events |
| Listings.ListingsHaveSameKeys | src/server.js:306-310 | two listings of the same store with the same filter and order have the same length and the same sort key at every position, so only the order of rows with equal keys may differ |
| MagicLink.RequestMagicLink | src/auth.js:7-18 | the user for that email ends up holding the token, expiring at now plus 15 minutes; an existing user changes only in those two fields; an unknown email becomes a new student; other users are unchanged |
| MagicLink.ConsumeMagicToken | src/auth.js:20-25 | returns a user exactly when some user holds the token with an expiry after now; that user's token and expiry are then cleared and nothing else changes; otherwise it returns nothing and the table is unchanged |
| MagicLink.RequestedTokenRedeemsUntilExpiry | src/auth.js:9-21 | a just-issued token redeems at every instant before now plus 15 minutes and at no instant after that |
| MagicLink.RequestRevokesEarlierToken | src/auth.js:10-13 | after a new request, the user's earlier token no longer redeems for them |
| MagicLink.RequestPreservesRole | src/auth.js:10-14 | requesting a link never changes an existing user's role, id or name |
| MagicLink.ConsumedTokenIsSingleUse | src/auth.js:21-24 | after a successful consume, nobody can redeem that token again, at any time |
| MagicLink.ConsumeChangesOnlyTokenFields | src/auth.js:23 | consuming clears exactly the consumed user's token and expiry |
| MagicLink.RequestThenConsume | src/auth.js:7-24 | when no other user holds the same token, a consume before expiry finds the requesting user and no one else |
| MagicLink.SetUserRole | src/server.js:91-100 | a caller who is not superadmin gets Forbidden; a missing email or role gets BadRequest; otherwise that user gets the role, with everything else kept, or a new user with that role and no token is created; other users are unchanged |
| MagicLink.RoleSurvivesSignIn | src/auth.js:10-14 | a role set by the superadmin is the role of the session after the next sign-in |
| MagicLink.RequestPreservesValid | src/auth.js:10-14 | the upsert keeps the user table keyed by email, with distinct ids that are all already allocated and every role in canonical form |
| MagicLink.ClearTokenPreservesValid | src/auth.js:23 | clearing a token keeps the user table invariant |
| MagicLink.SetUserRolePreservesValid | src/server.js:94-98 | the role upsert keeps the user table invariant |

## Behaviour that follows the code rather than an idealised design

- Create does not check that the window starts before it ends.
- Submit accepts an event in any status, including an approved one. It
  includes the event itself in its own conflict check, so resubmitting a
  submitted or approved event whose start is before its end is flagged
  against itself. A draft or declined event, or an event whose start is
  not before its end, is not flagged against itself.
- A decision does not look at the current status. An absent event is not
  checked before the store update, which throws. The route does not
  handle that error, and the model answers `Unhandled`.
- Edit never recomputes `conflict`, even when the venue or the window
  changes. It also writes `visibility` as supplied, so a creator can make
  a draft public.
- Attaching files needs only ownership, in any status, including approved.

## Left out

- HTTP plumbing: Express routing, CORS, cookie sessions, `/health`,
  `/me` and logout. Every modelled route runs behind `requireAuth`, so
  the actor is a parameter and is always present. The session keeps the
  role the user had at sign-in, and the guards read that copy, so a role
  set by `SetUserRole` takes effect for a signed-in user only at their
  next sign-in (`RoleSurvivesSignIn`).
- Group and venue CRUD. Only its guard is modelled, as
  `RequireSuperadmin`. The 409 "in use" answer comes from a foreign-key
  constraint in a schema that is not part of this model.
- The reference-data listings of groups, venues and services. They need
  only a signed-in user and only read tables the model does not store.
- Foreign-key failures on `groupId`, `venueId` and `serviceId`: groups,
  venues and services are not stored. A failing service-row insert after
  the event insert is one such failure. Create is not one atomic write,
  so such a request fails while the event row and any earlier service
  rows stay stored; the model's `Create` is all-or-nothing.
- Multer: the disk storage, the file names, the 10 MB size limit, the
  PNG/JPEG MIME filter and the cap of 4 files per request. A file the
  filter rejects, a file over the size limit or a fifth file makes multer
  fail the whole request before the route runs, so nothing is stored;
  the model starts at the route, with the files already accepted.
- The iCal feed, which only renders approved events with a library.
- Date parsing with `new Date(...)` and invalid dates: instants are given
  as integers.
- Listings.Query: the three listings also return each event's group,
  venue and service rows, joined in by the store. Groups, venues and
  services are not stored in the model, so a listed row carries only the
  event.
- Lifecycle.Create: attendance is taken as an already-numeric value.
  `Number(...)` applied to a string, including NaN, is not modelled.
- Lifecycle.Edit: a JSON null for title, group or venue is not
  modelled. The store would reject it. A null or other falsy start or
  end time is modelled: it leaves the stored time unchanged, as a missing
  one does. Attendance is written when it is a JSON number; the model's
  numbers are integers, so a fractional number such as 2.5, which the
  route passes on to the store, is not modelled. The route also writes
  `visibility` from the request without checking it, so any JSON value
  reaches the store update; the model's request carries only private or
  public. Whether the store accepts another value depends on a column
  type that is not part of this model.
- Random token generation and the login e-mail (src/mailer.js). The
  token and the clock are parameters.
- The empty-email and empty-token 400 answers of the two sign-in routes.
  They sit outside src/auth.js.
- MagicLink.ConsumedTokenIsSingleUse: this assumes no two users hold the
  same outstanding token. The source relies on 24 random bytes for that.
  Without the assumption, the proof still shows that the consumed user
  holds no token (`ConsumeChangesOnlyTokenFields`).
- Concurrency: the race between reading conflicts and writing them is not
  modelled. Each route is one atomic transition.
- The React pages, the dev-server proxy and the seed script.
