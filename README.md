# Collaborative presentation sessions, in Dafny

This project models the real-time session logic of a collaborative slide
editor. Clients join a presentation over socket.io. The first one into an
empty presentation becomes its creator; everyone after that joins as a viewer.
The creator can promote members to editor, and can add or remove slides.
Creators and editors can insert, overwrite, move and delete the positioned
text and image elements on a slide. When the creator disconnects, the
earliest-joined remaining member takes over.

The model has six modules:

- `Members` (members.dfy) holds the presentation's `users` Map and its
  `creatorId`. The Map is a sequence of `(connection id, {nickname, role})`
  entries in insertion order: `users.set` on an existing key keeps that key's
  position, and failover takes the first remaining key. The module also has
  the two permission gates: `creatorId` for slides, and the member's live role
  for elements. It gives the membership effect of join, role change and
  disconnect as the functions `Join`, `UpdateRole` and `Leave`, with lemmas
  about key order, values and the creator invariants.
- `Deck` (deck.dfy) holds slides and elements. It has `slides.find`,
  `slides.filter`, `elements.findIndex`, `elements.filter`, and the three paths
  of the element upsert: insert with a fresh id, replace in place, and append
  when the id is unmatched.
- `Server` (server.dfy) is the imperative core. Class `Presentation` is the
  loaded document whose fields the handlers update in place. Class
  `Connection` is one socket with its `currentPresentationId`. Each socket
  handler is one method. Its `ensures` clauses give the new document, the
  connection's state and the messages it emits, as a list of `Emit`: either to
  the requesting socket or to the whole room. `DemoSession` and
  `DemoEditAndHandover` take two connections through a whole session.
- `Client` (client.dfy) covers the parts of the frontend component that decide
  what a client shows and sends. That is the role it derives from the last
  member list, the `"img:"` content encoding, the elements its buttons, drags
  and edits send, and the role-change requests its member list offers. These
  parts are linked to the server's gates and upsert paths.
- `Wrappers` (wrappers.dfy) holds `Option`, and `Seqs` (seqs.dfy) holds two facts about dropping one position of a sequence.

Modelling choices:

- There is one in-memory presentation. Finding the document
  (`Presentation.findOne`) succeeds exactly when the requested id is this
  presentation's id.
- `uuidv4()` is a parameter, `freshId: Uuid`, that is non-empty. `FreshIn`
  requires that no slide or element of the deck already uses it.
- Roles are strings, because `update-user-role` stores whatever string the
  client sends.
- Connection ids are never empty, so a null `creatorId` is `None`.
- An element's `id` is an `Option<string>`. "Falsy" means absent or `""`.
- An element's `content` is `Missing` (undefined), `Str(text)` or `NotAString`
  (null, a number, …). The server turns only `Missing` into `""`.

Three behaviours of the code are easy to miss, and the model follows the code
in each:

- `update-user-role` lets the creator give another member the role creator
  without moving `creatorId`. So "at most one creator" does not hold in
  general (`Members.PromotionMakesSecondCreator`). It is proved for role
  changes to any other role, and that covers every request the client can
  send.
- `remove-slide` and `remove-shape` filter. They remove every slide or element
  with the id, not just one. Ids are kept unique, so this removes at most one.
- When a connection that is already a member joins again, it is stored as
  viewer whatever its role was. For the creator's own connection, this leaves
  `creatorId` naming a viewer (`Members.RejoinDemotesCreator`).

## Model

| member | source | states |
|---|---|---|
| `Members.GetAt` | backend/index.js:95 | `users.has(k)` holds exactly when `k` is one of the keys, and in a Map `users.get(k)` is the value of the entry with that key |
| `Members.SetUserSpec` | backend/index.js:97-99 | `users.set(k, v)`: reading `k` afterwards gives `v` and every other key keeps its value. Key order is unchanged when `k` was present, and `k` is appended otherwise |
| `Members.SetUserDistinct` | backend/index.js:81-83 | `users.set` never creates a second entry with the same key |
| `Members.DeleteUserSpec` | backend/index.js:172 | `users.delete(k)` drops `k`, keeps every other key's value, and changes nothing when `k` is absent |
| `Members.DeleteUserAt` | backend/index.js:172 | deleting the key at position `i` removes exactly that entry and keeps the others in their order |
| `Members.JoinSpec` | backend/index.js:79-84 | the joiner becomes creator and `creatorId` exactly when the presentation had no creator and no members; otherwise it is stored as viewer and `creatorId` stays. No other member changes, and a new joiner is appended last |
| `Members.JoinCreatorIffEmpty` | backend/index.js:79-84 | while the invariant holds, the joiner gets role creator exactly when the room was empty |
| `Members.JoinPreservesInvariants` | backend/index.js:79-84 | join keeps every creator-role member equal to `creatorId`. It keeps `creatorId` consistent when the joiner is not the creator's own connection |
| `Members.RejoinDemotesCreator` | backend/index.js:79-83 | whenever `creatorId` is consistent and names the joining connection, the repeated join leaves `creatorId` naming that connection with role viewer, so `creatorId` is no longer consistent |
| `Members.UpdateRoleSpec` | backend/index.js:94-99 | a role change takes effect only if the actor is `creatorId`, the target is a member, and it is not a demotion of the creator; otherwise nothing changes. On success only the target's role changes: its nickname, the other members, the key order and `creatorId` are untouched |
| `Members.UpdateRolePreservesInvariants` | backend/index.js:94-99 | a role change keeps `creatorId` consistent, and keeps a single creator when the new role is not creator |
| `Members.PromotionMakesSecondCreator` | backend/index.js:96-99 | the creator can give a second member the role creator |
| `Members.LeaveSpec` | backend/index.js:171-172 | disconnect removes exactly the leaving member and keeps the others in order. A non-creator leaving keeps `creatorId` and all other members |
| `Members.LeaveHandover` | backend/index.js:173-184 | the creator leaving last clears `creatorId` and leaves no members. Otherwise the earliest-inserted remaining member becomes `creatorId` with role creator and its own nickname, and the other remaining members are untouched |
| `Members.LeavePreservesInvariants` | backend/index.js:171-184 | disconnect keeps `creatorId` consistent and keeps a single creator |
| `Deck.FindSlide` | backend/index.js:130 | `slides.find` returns the first slide with the id, or nothing exactly when no slide has it |
| `Deck.RemoveSlide` | backend/index.js:119 | the filtered deck holds exactly the slides whose id differs, and is the same deck when none matches |
| `Deck.RemoveSlideAt` | backend/index.js:119 | with unique ids, removing slide `i`'s id drops exactly that slide and keeps the rest in order. This applies to the last remaining slide too |
| `Deck.RemoveSlidePreservesValid` | backend/index.js:119 | slide removal keeps slide ids unique and every slide's element ids unique and truthy |
| `Deck.AddSlidePreservesValid` | backend/index.js:109 | appending a slide with a fresh id and no elements keeps the deck well formed |
| `Deck.FindElement` | backend/index.js:139 | `elements.findIndex` gives the first index with the id, or -1 exactly when none has it |
| `Deck.RemoveElement` | backend/index.js:158 | the filtered slide holds exactly the elements whose id differs, and is unchanged when none matches |
| `Deck.RemoveElementAt` | backend/index.js:158 | with unique ids, removing element `i`'s id drops exactly that element and keeps the rest in order |
| `Deck.RemoveElementSpec` | backend/index.js:156-158 | after removal no element has the id. A match shrinks the slide by exactly one and keeps the order; no match changes nothing |
| `Deck.RemoveElementPreservesValid` | backend/index.js:158 | element removal keeps the slide's element ids unique and truthy |
| `Deck.UpsertSpec` | backend/index.js:132-145 | an element without a truthy id is appended under the fresh id, with undefined content turned into `""` and its coordinates kept, so the count grows by exactly one. A matching id replaces that element wholesale and the count stays the same. An unmatched id is appended unchanged |
| `Deck.UpsertReadBack` | backend/index.js:132-145 | after an upsert, looking up the id the element was stored under finds exactly the element written |
| `Deck.UpsertPreservesValid` | backend/index.js:132-145 | an upsert keeps element ids unique and truthy within the slide |
| `Server.Presentation.constructor` | backend/index.js:37-43 | a new presentation has exactly one slide with no elements, no creator and no members, and satisfies every invariant |
| `Server.Connection.constructor` | backend/index.js:68-69 | a new connection has no current presentation |
| `Server.Connection.JoinPresentation` | backend/index.js:71-88 | an unknown id only sends an error to this socket and leaves the connection and the document unchanged. Otherwise the connection's current presentation is set and the members become `Members.Join` of the old ones. The socket gets the document and the room gets the member list. The slides are untouched and the invariants are kept (see Left out) |
| `Server.Connection.UpdateUserRole` | backend/index.js:90-102 | the members become `Members.UpdateRole` of the old ones when the connection is in the room. The member list is broadcast only when every guard passes. The slides are untouched and the invariants are kept |
| `Server.Connection.AddSlide` | backend/index.js:104-112 | only for `creatorId`, the deck becomes the old deck plus one fresh empty slide at the end, and the room gets the document; otherwise nothing changes and nothing is sent. Members are untouched |
| `Server.Connection.RemoveSlide` | backend/index.js:114-122 | only for `creatorId`, the deck becomes `Deck.RemoveSlide` of the old deck, even when that empties it; otherwise nothing changes. Members are untouched |
| `Server.Connection.UpdateElement` | backend/index.js:124-148 | only for a member whose live role is creator or editor, and only when the slide exists: that slide's elements become `Deck.Upsert` of the old ones, every other slide is unchanged, and the room gets the document. Otherwise nothing changes and nothing is sent |
| `Server.Connection.RemoveShape` | backend/index.js:150-161 | under the same gate and slide lookup, that slide alone loses the elements with the id; otherwise nothing changes |
| `Server.Connection.Disconnect` | backend/index.js:167-187 | no effect unless the connection is in the room and is a member. Otherwise the members become `Members.Leave` of the old ones, the room gets the member list, and the invariants are kept |
| `Client.MyRole` | frontend/src/components/Presentation.js:96 | a connection missing from the member list is treated as viewer, and the derived role is never empty |
| `Client.EditorViewMatchesServer` | frontend/src/components/Presentation.js:97-98 | `isCreator` implies `isEditor`. `isEditor` holds exactly for roles creator and editor, which is exactly when the server's element gate accepts the connection |
| `Client.CreatorViewMatchesServer` | frontend/src/components/Presentation.js:97 | while the server's invariants hold, the client shows slide management exactly when the server's `creatorId` gate accepts it |
| `Client.CreatorViewCanDisagree` | frontend/src/components/Presentation.js:97 | starting from a consistent room with a single creator, once the creator promotes a viewer to creator through `Members.UpdateRole`, `creatorId` is still consistent, the promoted client shows slide buttons, and the server's slide gate refuses that client |
| `Client.DecodeImageContent` | frontend/src/components/Presentation.js:185-187 | content built as `"img:" + url` decodes as an image with exactly that URL |
| `Client.DecodeString` | frontend/src/components/Presentation.js:185-187 | a string decodes as an image exactly when it is some URL's image content, and re-encoding the URL gives the string back; any other string is shown as itself |
| `Client.NonStringContentIsText` | frontend/src/components/Presentation.js:185-186 | non-string content is shown as empty text, never as an image |
| `Client.NewBlocksAreInserted` | frontend/src/components/Presentation.js:57-73 | new text and image blocks carry no id, so the server appends them under the fresh id with their content as typed. An image block reads back as its URL |
| `Client.DragReplacesInPlace` | frontend/src/components/Presentation.js:79-85 | a drag keeps the element's id, so the server overwrites that element in place |
| `Client.EditsReplaceInPlace` | frontend/src/components/Presentation.js:215-227 | image and text edits keep the element's id, so the server overwrites that element in place |
| `Client.RoleButtons` | frontend/src/components/Presentation.js:256-272 | every button request names a listed member other than this connection, with role editor or viewer |
| `Client.RoleRequests` | frontend/src/components/Presentation.js:259-272 | only a client that derives role creator offers role changes, each for another listed member and to editor or viewer |
| `Client.RoleRequestsKeepUniqueCreator` | frontend/src/components/Presentation.js:259-272 | every role change the client can request keeps `creatorId` consistent and keeps a single creator on the server |

## Left out

- MongoDB persistence (`findOne`, `save`, `find`) is not modelled, nor are the Express routes, static serving and server start-up (backend/index.js:14-66, 190-193). These are I/O. The document store is the one `Presentation` object, and every save succeeds, so the choice between failing open and failing closed does not arise. The constructor models the document built at backend/index.js:37-43, not the route around it.
- socket.io rooms and delivery are not modelled. Each handler returns the messages it emits, with their audience (this socket or the room), and nothing tracks who is in the room.
- Concurrency, `async`/`await` interleavings and lost updates are not modelled. Each handler runs atomically.
- `uuidv4()` is not modelled. It becomes the `freshId` parameter, which must be non-empty and unused in the deck.
- `update-thumbnail` (backend/index.js:163-165) only logs, so it is not modelled.
- Element coordinates and the drag arithmetic (floating point, zoom) are not modelled. `x` and `y` are opaque `real` values that are copied through.
- React rendering, hooks, prompts, Markdown and image rendering are not modelled, nor are frontend/src/components/Home.js and frontend/src/App.js. These are UI, fetch and routing. Prompt answers are parameters: `None` means the prompt was cancelled.
- backend/models/Presentation.js is used only for the datatype shapes. Mongoose type casting and defaults on save are not modelled.
- A connection joining a second presentation is not modelled: there is one presentation, and any other id reads as "Presentation not found". Payload fields of other JavaScript types (a numeric slide id, a missing `element` object) are not modelled either.
- `Server.Connection.Disconnect` leaves `currentPresentationId` set, as the source does. The model does not forbid later events from a socket that has disconnected.
- `Server.Connection.JoinPresentation` promises a consistent `creatorId` afterwards only when the joiner is not the creator's own connection. The source breaks it in that case (`Members.RejoinDemotesCreator`).
- `Members.JoinPreservesInvariants` is conditional in the same way, for the same reason.
- `Server.Connection.UpdateUserRole` promises a single creator afterwards only when the new role is not creator. The source allows a second creator (`Members.PromotionMakesSecondCreator`).
- `Members.UpdateRolePreservesInvariants` keeps a single creator only for new roles other than creator, for the same reason.
