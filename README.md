# HobbyMate backend core in Dafny

HobbyMate is a Django backend that matches people with shared hobbies. Users rate fifteen interests. They swipe through candidates: `like` records a `Liked` row and any other action a `Rejected` row. Two users who like each other get a direct dialog and a match notification. A periodic job cuts the mutual-like graph into groups of five to seven users, each with a group chat. This project models that core and proves what it promises.

The database is the class `Db.Store`, with one sequence per table. A row's id is its position in the table, and its primary key is that position plus one. `Db.ValidTables` collects the declared constraints:

- the `unique_together` keys and unique names;
- the foreign keys;
- the vector dimensions;
- the invariants the code keeps: one direct dialog per pair of users, one chat per group.

Every operation that writes the database is a method `modifies db`. Its `ensures` ties the new tables (and the reply) to a specification function of the old tables. The properties are then proved as lemmas about those functions: what each request changes, which error replies it gives, which invariants it keeps, and what a repeated call does.

Modules, one per source file:

- `UserModels`, `GroupModels`, `DialogModels`, `InterestModels`: the model files. They hold rows as datatypes, column defaults, uniqueness constraints and default orderings.
- `Db`: the tables, their constraints, posting a message and the other-participant lookups.
- `Common`: Python string helpers (`strip`, `split`, `lower`, `str(int)`) and id-list facts. `Sorting`: a stable sort by a key, used for `order_by` and `list.sort`.
- `Views`: swiping, the interactions list, reset and unreject, dialog creation, messages, the match list, and group update and members.
- `Consumers`: the chat socket (storing a message, the like a reply implies, recipients and notifications) and the notify socket (replaying and marking unread notifications).
- `Grouping`: the mutual-like graph, clique splitting, the existing-group test, group creation and the whole `build_groups` run.
- `Find`: candidate selection.
- `Serializers`: the profile privacy projection, photo validation, profile input normalisation and update, and the computed fields of the group, dialog, message and match serializers.
- `InterestUtils`: the interest-vector rebuild and the pick of shared interests for the introduction message.
- `UserTasks`: the inactivity sweep.
- `Auth`: the bearer-token authenticator. The scheme is that of section 2.1 of RFC 6750, the `aud` claim that of section 4.1.3 of RFC 7519, and the `azp` claim that of section 2 of OpenID Connect Core 1.0.
- `LoggingFilters`: the body-trimming and secret-masking log filters.

Where the documentation and the code differ, the model follows the code:

- The inactivity sweep deactivates users whose last login is strictly before one week ago, not "at least seven days" ago.
- Posting a message through the REST view does not add the implied like. Only the chat socket does.
- Opening a dialog adds the opener's like but never announces a match.

Other behaviours of the code that the model keeps:

- Swiping `like` on oneself creates `Liked(me, me)`, which then counts as reciprocal.
- A swipe action other than `like` is stored as the rejection reason without checking it. A missing action, or one longer than ten characters, fails as a server error.
- The 403 reply of the group update cannot happen: the group lookup already admits only active members, so a non-member gets 404.
- A failed group insert aborts the whole `build_groups` run. The pushes already sent stay sent.
- The rejected list of the interactions view has one entry per rejection row, so a user rejected for two reasons appears twice.
- A signed-in token whose username, name or email is longer than its column fails with a server error, as the database refuses the write.
- A profile edit that sends a null photo passes the nullable image field and then fails as a server error in the photo validator, before anything is saved.
- The REST serializers read a user's photo URL without checking that a photo is set (only the chat socket checks). A user without a photo therefore makes a server error of the interactions list, of the group member list, of the message history, of the dialog created or found with that partner, and of a message that user posts. The dialog and the message are stored all the same.

Two places where the code evidently does not do what it means are modelled both ways (see "## Findings"): the secret-masking filter follows the code as written, with the intended argument masking beside it; the match list follows the intended photo rule, with the as-written failure proved beside it.

## Model

| member | source | states |
|---|---|---|
| UserModels.NewUser | backend_helper_course/users/models.py:11-56 | a new user is active, not a superuser, never logged in, without vectors, location, photo or city, with group sizes 5 and 7, and a valid row |
| UserModels.CountLikeUnique | backend_helper_course/users/models.py:110 | with (user, liked_user) unique, a like is held once or not at all |
| UserModels.AddLikeIdempotent | backend_helper_course/users/models.py:110 | `get_or_create` of a like keeps likes unique, holds the like exactly once, is idempotent and adds no other like |
| UserModels.SkipAndDislikeCoexist | backend_helper_course/users/models.py:63-68 | a skip and a dislike of the same pair can both be held, the triple staying unique (see also users/models.py line 87) |
| UserModels.LikedBy | backend_helper_course/users/models.py:96-106 | the users liked by `me` are exactly the targets of `me`'s likes |
| UserModels.RejectedBy | backend_helper_course/users/models.py:70-83 | the users rejected by `me` are exactly the targets of `me`'s rejections, whatever the reason |
| GroupModels.ActiveMembersOf | backend_helper_course/custom_groups/models.py:40 | a group's listed memberships are exactly its active ones |
| GroupModels.ActiveMembersInOrder | backend_helper_course/custom_groups/models.py:40 | any two active memberships of a group are listed in their table (join) order, as `ordering = ['group', 'joined_at']` gives |
| GroupModels.GroupsOf | backend_helper_course/custom_groups/models.py:14 | the groups of a user are exactly those with an active membership, newest first |
| GroupModels.ActiveMemberIds | backend_helper_course/custom_groups/models.py:34 | the active member ids are exactly the users with an active membership |
| DialogModels.NewestFirst | backend_helper_course/dialogs/models.py:31 | the default ordering lists rows from the newest to the oldest (see also dialogs/models.py line 59) |
| DialogModels.FindDirect | backend_helper_course/dialogs/models.py:22-31 | the newest non-group dialog holding both users, or none iff there is no such dialog |
| DialogModels.FindGroupChat | backend_helper_course/dialogs/models.py:34-39 | a chat linking the group, or none iff no chat links it |
| DialogModels.SameMembershipKeepsInvariants | backend_helper_course/dialogs/models.py:23-26 | changes that keep each dialog's users and group keep one direct dialog per pair and one chat per group |
| InterestModels.UpsertRating | backend_helper_course/interests/models.py:32 | `update_or_create` overwrites the one row of (user, interest) or appends one, leaving every other row |
| InterestModels.UpsertKeepsKeysUnique | backend_helper_course/interests/models.py:32 | an upsert keeps (user, interest) unique |
| InterestModels.UpsertStores | backend_helper_course/interests/models.py:32 | after an upsert the rating is stored |
| InterestModels.UpsertKeepsRatingsOk | backend_helper_course/interests/models.py:15-32 | an upsert of a rating in 1..5 for a known user and interest keeps the rating table's constraints |
| InterestModels.RatingOfUnique | backend_helper_course/interests/models.py:32 | with (user, interest) unique, the rating found for a row's key is that row's |
| InterestModels.RatingOfAbsent | backend_helper_course/interests/models.py:15-32 | without a row for the key there is no rating |
| Db.Row | backend_helper_course/dialogs/consumers.py:69-72 | a primary key names a row iff it lies in 1..n, and then names exactly one row |
| Db.PostToFacts | backend_helper_course/dialogs/consumers.py:128-132 | posting appends the message and links it to the one dialog, changing nothing else |
| Db.PostToKeepsValid | backend_helper_course/dialogs/consumers.py:128-132 | posting keeps every table constraint |
| Db.OthersFacts | backend_helper_course/dialogs/consumers.py:42-49 | the recipients are members of the dialog other than the sender, by ascending id |
| Db.OthersComplete | backend_helper_course/dialogs/consumers.py:42-49 | every other member of the dialog is a recipient |
| Db.FirstOther | backend_helper_course/dialogs/consumers.py:56-58 | the member other than the caller with the smallest id, or none iff the caller is alone (see also api/serializers.py line 309) |
| Common.StripEmptyIffBlank | backend_helper_course/api/serializers.py:341 | a string strips to nothing iff it is all whitespace; otherwise the result has no whitespace at either end |
| Common.Fields | backend_helper_course/helper/auth.py:48 | `split()` yields only non-empty fields without whitespace |
| Common.Lower | backend_helper_course/api/serializers.py:242 | lower-casing maps each ASCII capital to its small letter and keeps the length (see also helper/auth.py line 45) |
| Common.AscendingFacts | backend_helper_course/dialogs/consumers.py:42-49 | a set of ids listed by key gives only members, in strictly increasing order |
| Common.AscendingComplete | backend_helper_course/dialogs/consumers.py:42-49 | a set of ids listed by key misses no member |
| Sorting.Insert | backend_helper_course/dialogs/find.py:43 | inserting into a stably ordered index list keeps it ordered and adds exactly one index (see also dialogs/find.py line 51) |
| Sorting.SortIdx | backend_helper_course/dialogs/find.py:43 | the sort order is a stable ordering of all indices below n (see also dialogs/find.py line 51) |
| Sorting.OrderedDistinct | backend_helper_course/dialogs/find.py:43 | a stably ordered index list has no repeated index (see also dialogs/find.py line 51) |
| Sorting.ArrangeSorted | backend_helper_course/dialogs/find.py:43 | sorting is a permutation (same multiset of elements) and puts the keys in non-decreasing order (see also dialogs/find.py line 51) |
| Views.NoticesFacts | backend_helper_course/api/views.py:403-419 | the per-user loop gives each listed user exactly one unread notification about the dialog and one `notify` push on their own channel, in list order |
| Views.Announce | backend_helper_course/api/views.py:403-419 | the loop appends exactly those notifications and pushes and changes nothing else |
| Views.OpenMatchDialog | backend_helper_course/api/views.py:394-419 | the method's tables and dialog are `OpenMatch` of the tables before it |
| Views.OpenMatchDirect | backend_helper_course/api/views.py:394-402 | the dialog a match opens is a direct (non-group) dialog holding both users |
| Views.OpenMatchFacts | backend_helper_course/api/views.py:394-419 | opening a match keeps the tables valid, the pair's direct dialog is then the one the lookup finds, and only dialogs, notifications and pushes change |
| Views.Swipe | backend_helper_course/api/views.py:382-433 | the method's tables and reply are `SwipeSpec` of the tables before it |
| Views.SwipeKeepsValid | backend_helper_course/api/views.py:382-433 | every swipe keeps every table constraint (both unique_together keys included) (see also users/models.py line 87; users/models.py line 110) |
| Views.SwipeState | backend_helper_course/api/views.py:384-433 | the tables after a swipe are the like's for `'like'`, a stored rejection for any other action of at most 10 characters, and unchanged otherwise (unknown target: 404; missing or too long action: error) |
| Views.SwipeLikeOnce | backend_helper_course/api/views.py:387 | after a like exactly one like row holds the pair (see also users/models.py line 110) |
| Views.SwipeMutualIff | backend_helper_course/api/views.py:386-426 | a like is mutual iff the target already liked the requester (or is the requester); mutual replies carry a direct dialog of the pair with status 201, the rest status 200 and no dialog |
| Views.SwipeMatchNotices | backend_helper_course/api/views.py:394-419 | a mutual like reuses the pair's direct dialog with no notification or push, or else creates one and exactly two notifications and two pushes |
| Views.SwipeIdempotent | backend_helper_course/api/views.py:382-433 | repeating the same swipe returns the same reply and changes nothing more |
| Views.SwipeRejects | backend_helper_course/api/views.py:384 | any other action is stored as a rejection with that reason, unvalidated, and answers not mutual; an unknown target answers 404 and changes nothing (see also api/views.py lines 428-433) |
| Views.AddRejectKeepsOk | backend_helper_course/api/views.py:428-432 | get-or-create of a rejection keeps the (user, rejected, reason) key unique and stores the row (see also users/models.py line 87) |
| Views.InteractionsList | backend_helper_course/api/views.py:187-195 | the list answers 500 exactly when a liked or rejected user has no photo (the short user serializer reads the photo url unguarded); otherwise the liked list holds exactly the users the requester liked and the rejected list exactly those rejected for some reason, one entry per row (see also api/serializers.py lines 41-44) |
| Views.DeleteRejects | backend_helper_course/api/views.py:200 | the delete keeps exactly the rows that do not match the filter (see also api/views.py lines 212-215) |
| Views.DeleteRejectsUnique | backend_helper_course/api/views.py:200 | deleting keeps the remaining rejections unique (see also users/models.py line 87) |
| Views.Reset | backend_helper_course/api/views.py:199-201 | the tables after `reset` are `ResetSpec` of the tables before it |
| Views.Unreject | backend_helper_course/api/views.py:211-216 | the tables after `unreject` are `UnrejectSpec` of the tables before it |
| Views.ResetAndUnrejectFacts | backend_helper_course/api/views.py:199-216 | after `reset` the requester has rejected nobody and other users' rejections remain; `unreject` removes exactly the requester's rows for that target, whatever their reason; both keep the tables valid |
| Views.CreateDialog | backend_helper_course/api/views.py:241-311 | the method's tables and reply are `CreateDialogSpec` of the tables before it |
| Views.StartDialog | backend_helper_course/api/views.py:258-308 | the writes of a first contact are `FirstContact` of the tables before them |
| Views.FirstContactFacts | backend_helper_course/api/views.py:258-297 | a first contact adds exactly the pair's dialog holding the intro message, a single like row, and one notification to the partner |
| Views.FirstContactKeepsValid | backend_helper_course/api/views.py:258-297 | a first contact keeps every table constraint |
| Views.CreateDialogKeepsValid | backend_helper_course/api/views.py:241-311 | opening a dialog keeps every table constraint |
| Views.CreateDialogFacts | backend_helper_course/api/views.py:242-311 | a missing partner, an unknown or inactive partner, or the requester as partner changes nothing; an opened dialog is a direct dialog of the pair whose shown partner has a photo; a new one comes with the like, the intro and one notification, and is answered with 500 exactly when the partner has no photo, the writes staying |
| Views.CreateDialogRenderFails | backend_helper_course/api/views.py:310-311 | the answer is a 500 exactly when the pair's direct dialog, found or just created, shows a partner without a photo (see also api/serializers.py lines 303-314) |
| Views.DialogAnswer | backend_helper_course/api/serializers.py:303-314 | a dialog is rendered unless the partner it shows has no photo, which raises |
| Views.CreateDialogRepeat | backend_helper_course/api/views.py:250-311 | asking again for the same partner returns the same answer and changes nothing |
| Views.OwnDialog | backend_helper_course/api/views.py:236-239 | a dialog is found exactly when it exists and the requester is one of its users (see also api/views.py line 335) |
| Views.PostMessage | backend_helper_course/api/views.py:334-343 | the method's tables and reply are `PostMessageSpec` of the tables before it |
| Views.PostMessageFacts | backend_helper_course/api/views.py:337-343 | blank or missing text answers 400 and stores nothing; a foreign dialog answers 404; otherwise exactly one message with the stripped text is appended and linked to that dialog only, and the answer is a 500 exactly when the sender has no photo, the message staying stored (see also api/serializers.py lines 320-323) |
| Views.PostMessageKeepsValid | backend_helper_course/api/views.py:341-342 | posting keeps every table constraint |
| Views.MessageHistoryRendered | backend_helper_course/api/views.py:344-345 | the history either fails or renders the dialog's messages in ascending id order |
| Views.MessageHistoryFails | backend_helper_course/api/views.py:335-345 | the history answers 404 exactly when the requester is not in the dialog, and 500 exactly when one of its messages has a sender without a photo (see also api/serializers.py lines 320-323) |
| Views.MessageHistoryListed | backend_helper_course/api/views.py:344-345 | a served history lists each message linked to the dialog and nothing else |
| Views.MessageHistoryOrdered | backend_helper_course/api/views.py:344 | a served history is in creation order (see also dialogs/models.py line 26) |
| Views.MessageHistoryRow | backend_helper_course/api/views.py:344-345 | each entry of a served history carries the id, text and sender of its message and the sender's display name, and that sender has a photo (see also api/serializers.py lines 339-341) |
| Views.RenderedIds | backend_helper_course/api/views.py:345 | each rendered message carries its own id, text and sender |
| Views.CardsFacts | backend_helper_course/api/views.py:371 | each card shows one found user, with a photo exactly when privacy flag 0 allows it and a photo exists (see also api/serializers.py lines 360-362) |
| Views.MatchListRefused | backend_helper_course/api/views.py:357-366 | the list is refused with 400 exactly when no component of the interest vector is above 2 (a null vector has none) |
| Views.MatchListShowsFound | backend_helper_course/api/views.py:368-371 | a served list shows the cards of what `find_candidates` ranked with limit 10 |
| Views.CardsAsWrittenFails | backend_helper_course/api/views.py:371 | as written, rendering the found users fails (a 500) exactly when one of them has a stored privacy vector, and otherwise gives the same cards as the corrected serializer |
| Views.MatchListFacts | backend_helper_course/api/views.py:356-371 | a served list holds at most 10 eligible users, each with its photo shown exactly when allowed |
| Views.UpdateGroup | backend_helper_course/api/views.py:156-165 | the method's tables and reply are `UpdateGroupSpec` of the tables before it |
| Views.UpdateGroupFacts | backend_helper_course/api/views.py:150-165 | the update never answers 403: a group the requester is not an active member of answers 404; an invalid edit answers 400; neither changes anything |
| Views.UpdateGroupApplied | backend_helper_course/api/views.py:165 | a valid edit stores the stripped fields in the group's row, and the reply names a chat of that group (see also api/serializers.py lines 269-277) |
| Views.EditKeepsNamesUnique | backend_helper_course/api/views.py:165 | a valid edit keeps group names unique (see also custom_groups/models.py line 7) |
| Views.UpdateGroupKeepsValid | backend_helper_course/api/views.py:156-165 | updating a group keeps every table constraint |
| Views.GroupMembersFail | backend_helper_course/api/views.py:170-174 | the list answers 500 exactly when an active member of the group has no photo (the member serializer reads the photo url unguarded) (see also api/serializers.py lines 24-27) |
| Views.GroupMembersRows | backend_helper_course/api/views.py:169-174 | a served list shows the group's active memberships in order, with each row's user and admin flag |
| Views.GroupMemberListed | backend_helper_course/api/views.py:170-174 | in a served list a user is listed exactly when they are an active member of the group |
| Views.GroupMembersOnce | backend_helper_course/api/views.py:170-174 | each member is listed once in a served list (see also custom_groups/models.py line 41) |
| Views.ActiveMembersDistinct | backend_helper_course/custom_groups/models.py:41 | with (user, group) unique, one group's active memberships name distinct users |
| Consumers.NameTitle | backend_helper_course/dialogs/consumers.py:58-63 | a direct chat's title is the stripped "first last" when either name is set, else the username |
| Consumers.TitleExists | backend_helper_course/dialogs/consumers.py:52-63 | `get_chat_title` answers exactly for a group chat (the group's name) or a dialog with another participant; otherwise `other` is None and it fails |
| Consumers.BlankNameTitle | backend_helper_course/dialogs/consumers.py:59-62 | a first name of one space gives an empty title: the truthiness test passes, the strip empties it |
| Consumers.ChatNotice | backend_helper_course/dialogs/consumers.py:105 | the notice is the fixed prefix, the title, the separator and the first min(50, len) characters of the text |
| Consumers.EnsureLikeOnReply | backend_helper_course/dialogs/consumers.py:145-180 | the tables after the method are `LikeOnReply` of the tables before it |
| Consumers.ReplyLikes | backend_helper_course/dialogs/consumers.py:154-180 | in a direct dialog of the sender and one other user, the reply adds the like once, and match notices and pushes for both users (in id order) exactly when the like was new and the other user already liked back |
| Consumers.ReplyIgnored | backend_helper_course/dialogs/consumers.py:149-153 | a group chat, a sender outside the dialog, or a dialog that is not a pair leaves every table unchanged |
| Consumers.ReplyIdempotent | backend_helper_course/dialogs/consumers.py:155-159 | a second reply changes nothing: the like exists after the first |
| Consumers.PairListed | backend_helper_course/dialogs/consumers.py:151 | the participants of a two-user dialog are listed as `[a, b]` in id order |
| Consumers.ListedPair | backend_helper_course/dialogs/consumers.py:151-152 | a dialog that lists two ids holds exactly those two users |
| Consumers.ReplyKeepsValid | backend_helper_course/dialogs/consumers.py:160-170 | the like-on-reply keeps every table constraint (see also users/models.py line 110) |
| Consumers.CreateMessage | backend_helper_course/dialogs/consumers.py:128-132 | the message row is created before the dialog lookup: for a missing dialog it stays stored and linked to no dialog |
| Consumers.ChatTitle | backend_helper_course/dialogs/consumers.py:52-63 | the method returns `Title` of the current tables |
| Consumers.ReceiveJson | backend_helper_course/dialogs/consumers.py:65-119 | the tables after `receive_json` are `ReceiveSpec` of the tables before it |
| Consumers.NotifyAll | backend_helper_course/dialogs/consumers.py:99-119 | the notification loop yields `NotifyRecipients` of the tables before it |
| Consumers.ReceiveRefused | backend_helper_course/dialogs/consumers.py:70-78 | without a text (KeyError) or a sender nothing is stored or sent |
| Consumers.ReceiveOrphan | backend_helper_course/dialogs/consumers.py:70-78 | for an unknown dialog the message row is still appended, no dialog links it, and nothing else changes (see also dialogs/consumers.py lines 128-131) |
| Consumers.ReceiveStored | backend_helper_course/dialogs/consumers.py:71 | for a known dialog the text is stored as given, with no blank check, and linked to that dialog only (see also dialogs/consumers.py lines 128-132) |
| Consumers.RecipientsAppended | backend_helper_course/dialogs/consumers.py:99-119 | the loop only appends notifications and the same number of pushes, and adds any only when the title exists |
| Consumers.RecipientsNotified | backend_helper_course/dialogs/consumers.py:99-106 | every participant other than the sender gets exactly one new notification, in id order, and nobody else gets one |
| Consumers.NoticedUsers | backend_helper_course/dialogs/consumers.py:101-106 | notices for an increasing list holding exactly the recipients reach each recipient once |
| Consumers.RecipientsNoticeText | backend_helper_course/dialogs/consumers.py:101-119 | each new notification is unread, names the dialog and carries the title and message preview; its push goes to the recipient's channel with the same text |
| Consumers.ReceiveBroadcast | backend_helper_course/dialogs/consumers.py:79-98 | the `chat.message` broadcast carries the new message's id, sender and text, and comes right after the like-on-reply pushes and before the recipients' pushes |
| Consumers.ReceiveKeepsValid | backend_helper_course/dialogs/consumers.py:65-119 | a message from a stored user keeps every table constraint |
| Consumers.UnreadOfFacts | backend_helper_course/dialogs/consumers.py:209-213 | the unread list holds exactly the user's unread notifications, each once, newest first (see also dialogs/models.py line 59) |
| Consumers.UnreadOfEmpty | backend_helper_course/dialogs/consumers.py:209-215 | nothing is listed exactly when the user has no unread notification |
| Consumers.MarkRowsAt | backend_helper_course/dialogs/consumers.py:230-231 | after marking the rows `ids`, a row is read exactly when it is one of them, with no other column changed |
| Consumers.MarkUnreadIsReadAll | backend_helper_course/dialogs/consumers.py:195-197 | marking the unread rows one by one equals marking all of the user's rows read |
| Consumers.FetchUnreadPayloads | backend_helper_course/dialogs/consumers.py:209-227 | the loop builds `Payloads`: one payload per unread notification, newest first |
| Consumers.SendAndMark | backend_helper_course/dialogs/consumers.py:195-197 | every payload is sent in order and exactly the listed rows are marked read |
| Consumers.NotifyConnect | backend_helper_course/dialogs/consumers.py:184-197 | an anonymous user gets nothing and changes nothing; otherwise every unread notification is replayed and the user's rows end up read |
| Consumers.ReplayedExactly | backend_helper_course/dialogs/consumers.py:209-227 | the replayed ids are exactly the user's unread notifications, newest first, each once |
| Consumers.PayloadFrom | backend_helper_course/dialogs/consumers.py:217-222 | `from` is set exactly when the dialog has another stored participant, and then names one |
| Consumers.ReadAllFacts | backend_helper_course/dialogs/consumers.py:194-197 | after the replay nothing of the user is unread, other users' rows and other columns are untouched, and a reconnect replays nothing (see also dialogs/consumers.py lines 230-231) |
| Consumers.ReadAllKeepsValid | backend_helper_course/dialogs/consumers.py:230-231 | marking read keeps every table constraint |
| Grouping.ActiveIds | backend_helper_course/dialogs/grouping.py:19-21 | the nodes added first are exactly the active users |
| Grouping.GraphOfFacts | backend_helper_course/dialogs/grouping.py:17-30 | after visiting a list of like rows, an edge stands for a visited row whose reverse exists, and a node is an active user or an edge endpoint |
| Grouping.MutualGraphEdges | backend_helper_course/dialogs/grouping.py:17-30 | u–v is an edge iff each likes the other; edges are symmetric; a node is an active user or the endpoint of a mutual like, active or not |
| Grouping.BuildGraph | backend_helper_course/dialogs/grouping.py:17-30 | the two loops build `MutualGraph` of the current tables |
| Grouping.Split | backend_helper_course/dialogs/grouping.py:33-42 | a clique of at most 7 comes back whole; a longer one gives contiguous slices at multiples of 7, each of 5 to 7 users, all but the last of 7, and only a trailing rest below 5 is dropped |
| Grouping.SplitClique | backend_helper_course/dialogs/grouping.py:33-42 | the slicing loop returns `Split` of the clique |
| Grouping.SplitNine | backend_helper_course/dialogs/grouping.py:36-42 | nine users give one chunk of the first seven |
| Grouping.SplitTwelve | backend_helper_course/dialogs/grouping.py:36-42 | twelve users give a chunk of seven and a chunk of five |
| Grouping.SortNatsFacts | backend_helper_course/dialogs/grouping.py:46 | `sorted` keeps the ids, orders them, and orders distinct ids strictly |
| Grouping.MemberIdsFacts | backend_helper_course/dialogs/grouping.py:49-53 | a user is among a group's member ids iff some membership row says so |
| Grouping.MemberCountIsCard | backend_helper_course/dialogs/grouping.py:54 | with (user, group) unique, the row count of a group is its number of members (see also custom_groups/models.py line 41) |
| Grouping.ExistingGroupMembers | backend_helper_course/dialogs/grouping.py:45-58 | a group that passes the filter has exactly the users `ids` |
| Grouping.GroupOfPasses | backend_helper_course/dialogs/grouping.py:45-58 | a group whose members are exactly the distinct users `ids` passes both the count and the sorted-ids filter |
| Grouping.GroupExistsIff | backend_helper_course/dialogs/grouping.py:45-58 | for distinct ids, `group_exists` holds iff some group's member set is exactly those ids (both directions) |
| Grouping.ShortNames | backend_helper_course/dialogs/grouping.py:75 | one short name per user, in order |
| Grouping.GroupNameParts | backend_helper_course/dialogs/grouping.py:74-78 | the name lists the short names of the min(3, n) chunk users with the smallest ids, in id order, between `Группа ` and `…` |
| Grouping.CreateGroup | backend_helper_course/dialogs/grouping.py:73-100 | the method does `CreateGroupSpec`; a failed insert (name taken or longer than 255) leaves the tables unchanged |
| Grouping.NotifyAdded | backend_helper_course/dialogs/grouping.py:85-100 | the loop appends one notification and one push per chunk user, in chunk order |
| Grouping.CreateGroupEffects | backend_helper_course/dialogs/grouping.py:76-90 | a created group's members are exactly the chunk with one row each, its chat holds exactly the chunk and links the group, and every chunk user gets one notification |
| Grouping.CreateGroupKeepsGroups | backend_helper_course/dialogs/grouping.py:80-82 | creating a group leaves every older group's members as they were |
| Grouping.CreateGroupKeepsValid | backend_helper_course/dialogs/grouping.py:73-100 | creating a group keeps every table constraint, unique group names and memberships included (see also custom_groups/models.py line 7; custom_groups/models.py line 41) |
| Grouping.ChunksOf | backend_helper_course/dialogs/grouping.py:65-67 | cliques below 5 contribute no chunk; every chunk has 5 to 7 users |
| Grouping.ChunksOk | backend_helper_course/dialogs/grouping.py:64-67 | chunks of cliques of distinct known users are such lists too |
| Grouping.Chunks | backend_helper_course/dialogs/grouping.py:64-67 | every chunk of a run has 5 to 7 users |
| Grouping.AbortAll | backend_helper_course/dialogs/grouping.py:61-70 | once a failure happens after some cliques, the later cliques change nothing |
| Grouping.AbortSticks | backend_helper_course/dialogs/grouping.py:61-70 | once an insert fails, the rest of the run changes nothing more (the exception ends it) |
| Grouping.BuildGroups | backend_helper_course/dialogs/grouping.py:61-70 | the method's tables and outcome are `BuildGroupsSpec` over the cliques of the mutual graph |
| Grouping.VisitChunks | backend_helper_course/dialogs/grouping.py:67-70 | the inner loop runs `RunChunks` over one clique's chunks, stopping at a failure |
| Grouping.RunKeepsValid | backend_helper_course/dialogs/grouping.py:61-70 | a completed run keeps the tables valid and leaves users and likes alone |
| Grouping.RunKeepsMembers | backend_helper_course/dialogs/grouping.py:80-82 | a completed run keeps (user, group) unique and every membership pointing at a known user and group (see also custom_groups/models.py line 41) |
| Grouping.RunGroups | backend_helper_course/dialogs/grouping.py:61-70 | after a completed run every visited chunk is the member set of some group |
| Grouping.RunNoop | backend_helper_course/dialogs/grouping.py:68-69 | a run over chunks that all have groups changes nothing |
| Grouping.RepeatedChunkSkipped | backend_helper_course/dialogs/grouping.py:68-70 | within one run, a chunk equal to the one just visited is skipped |
| Grouping.BuildGroupsIdempotent | backend_helper_course/dialogs/grouping.py:61-70 | after a completed run the graph is the same, and a second run creates no group, chat, membership, notification or push |
| Grouping.RunPushesGrow | backend_helper_course/dialogs/grouping.py:91-100 | a run, completed or not, only appends pushes |
| Grouping.BuildGroupsRollback | backend_helper_course/dialogs/grouping.py:61 | a failed run rolls back every table; only the pushes already sent stay |
| Find.EligibleUsers | backend_helper_course/dialogs/find.py:22-37 | a user is listed iff active, not a superuser, not the caller, not rejected and not liked by the caller; the list is in id order |
| Find.NearBy | backend_helper_course/dialogs/find.py:39-42 | a user is kept iff listed, located, and within the radius of the caller |
| Find.ResultEligible | backend_helper_course/dialogs/find.py:12-57 | every returned candidate passes the eligibility filter |
| Find.PoolEligible | backend_helper_course/dialogs/find.py:32-45 | every pooled user passes the eligibility filter |
| Find.IncomingLikeIgnored | backend_helper_course/dialogs/find.py:27-36 | a like from someone else towards the caller does not change the result |
| Find.PoolNearestFirst | backend_helper_course/dialogs/find.py:39-45 | with a caller location, the pool lies within the radius and is ordered by distance |
| Find.CandidatesNearestFirst | backend_helper_course/dialogs/find.py:39-44 | with a caller location, the queryset lies within the radius and is ordered by distance |
| Find.Bounds | backend_helper_course/dialogs/find.py:45-57 | the pool has at most `pool_size` users, the result at most the pool's and at most `limit`, and an empty pool gives an empty result |
| Find.RankedByScore | backend_helper_course/dialogs/find.py:47-57 | the result is the head of the pool stably sorted by descending score, scores non-increasing |
| Find.ScoreFailsIff | backend_helper_course/dialogs/find.py:21 | scoring fails iff the pool is non-empty and the caller or some pooled user has no interest vector (see also dialogs/find.py lines 47-50) |
| Serializers.PadPrivacy | backend_helper_course/api/serializers.py:198-201 | a missing vector becomes nine ones; a short one is padded with ones up to nine, a longer one kept as is |
| Serializers.PrivateFieldsDistinct | backend_helper_course/api/serializers.py:220-237 | the nine privacy flags guard nine different fields |
| Serializers.HideUpToKeys | backend_helper_course/api/serializers.py:222-237 | after the pops of flags 1..n-1 a key remains iff it was there and no earlier zero flag guards it; kept values are unchanged |
| Serializers.HidePrivate | backend_helper_course/api/serializers.py:219-237 | a zero first flag nulls the photo; each other guarded field is kept iff present and its flag is non-zero; unguarded fields and their values stay |
| Serializers.HideFields | backend_helper_course/api/serializers.py:220-237 | the nine `if not vec[i]` steps compute `HidePrivate` |
| Serializers.InterestsRatings | backend_helper_course/api/serializers.py:203-211 | one entry per catalogue interest, in catalogue order, with the owner's rating or 1 |
| Serializers.RatingShownInRange | backend_helper_course/api/serializers.py:208 | a shown rating is the stored one (which lies in 1..5) or the default 1 (see also interests/models.py lines 26-28) |
| Serializers.Represent | backend_helper_course/api/serializers.py:195-239 | the method renders `ToRepresentation` of the owner for the viewer |
| Serializers.FullViewWhenAllowed | backend_helper_course/api/serializers.py:213-219 | the owner, a user the owner liked, or any viewer of an owner without a privacy vector sees every field |
| Serializers.HideNothing | backend_helper_course/api/serializers.py:219-237 | a vector without a zero among its first nine flags hides nothing |
| Serializers.StrangerSeesOnlyAllowed | backend_helper_course/api/serializers.py:219-237 | for a stranger a zero flag hides its field: the photo becomes null, any other field is absent |
| Serializers.AfterLastDot | backend_helper_course/api/serializers.py:242 | `split('.')[-1]` is the dot-free suffix after the last dot, or the whole name without a dot |
| Serializers.ExtensionAfterStem | backend_helper_course/api/serializers.py:242 | the extension of `stem.ext` is `ext` |
| Serializers.PhotoAcceptedIff | backend_helper_course/api/serializers.py:241-247 | a photo is accepted iff its lower-cased extension is jpg, jpeg, png or webp and it has at most 15 MiB; a bad extension is reported first |
| Serializers.PhotoUpperCaseAccepted | backend_helper_course/api/serializers.py:242-243 | `me.JPG` of exactly 15 MiB is accepted |
| Serializers.PhotoGifRefused | backend_helper_course/api/serializers.py:243-244 | a gif is refused for its format whatever its size |
| Serializers.PhotoTooLargeRefused | backend_helper_course/api/serializers.py:245-246 | a png one byte over 15 MiB is refused for its size |
| Serializers.SenderName | backend_helper_course/api/serializers.py:339-341 | a blank full name falls back to the username; otherwise the name is non-empty and trimmed at both ends |
| Serializers.SenderNameFull | backend_helper_course/api/serializers.py:341 | a first name and last name without outer blanks give `first last` |
| Serializers.MatchProfilePhotoAsWritten | backend_helper_course/api/serializers.py:360-362 | as written, the serializer raises exactly when the user has a stored privacy vector (NumPy refuses the truth value of a nine-element array); without one the photo is shown iff it is set |
| Serializers.MatchProfilePhoto | backend_helper_course/api/serializers.py:360-362 | corrected: the photo is shown iff the first privacy flag allows it and a photo is set |
| Serializers.Partner | backend_helper_course/api/serializers.py:305-314 | a group chat has no partner; a partner is a member other than the caller |
| Serializers.PartnerOfPair | backend_helper_course/api/serializers.py:305-314 | in a private dialog of the caller and another user, the partner is that user |
| Serializers.GetChatId | backend_helper_course/api/serializers.py:269-277 | the method does `GetChatIdSpec` |
| Serializers.GetChatIdFacts | backend_helper_course/api/serializers.py:269-277 | the returned id names the group's chat; an existing chat is reused with nothing changed, otherwise one chat of the active members is appended |
| Serializers.GetChatIdStable | backend_helper_course/api/serializers.py:270 | a second call returns the same id and changes nothing |
| Serializers.GetChatIdKeepsValid | backend_helper_course/api/serializers.py:269-277 | creating the chat keeps every table constraint (see also dialogs/models.py lines 34-39) |
| Serializers.ParseField | backend_helper_course/api/serializers.py:151-162 | parsing one field keeps the keys and every other value |
| Serializers.NormalizeInputFacts | backend_helper_course/api/serializers.py:137-163 | the keys are those sent; an empty date of birth becomes null; any other plain field keeps its (flattened) value |
| Serializers.NormalizeParsesJsonText | backend_helper_course/api/serializers.py:151-156 | ratings sent as text are replaced by their parse when it succeeds and kept as text when it fails |
| Serializers.ApplyChanges | backend_helper_course/api/serializers.py:179-180 | each sent attribute overwrites its column; every other column, username and vector included, stays |
| Serializers.UpsertAll | backend_helper_course/api/serializers.py:183-188 | the upsert loop keeps the rating table's constraints |
| Serializers.Locate | backend_helper_course/api/serializers.py:166-175 | geocoding fails iff a non-empty city cannot be located; a sent city (even empty) is stored, a non-empty one also moves the location, and nothing else changes |
| Serializers.ProfileUpdate | backend_helper_course/api/serializers.py:165-193 | the method does `ProfileUpdateSpec` and keeps the tables valid |
| Serializers.StoreProfile | backend_helper_course/api/serializers.py:181-192 | saving the row, upserting and recalculating does `SaveProfile` and keeps the tables valid |
| Serializers.SaveRatings | backend_helper_course/api/serializers.py:183-188 | the loop does `UpsertAll`, changes only the rating table and keeps it valid |
| Serializers.ProfileUpdateKeepsValid | backend_helper_course/api/serializers.py:165-193 | an update keeps every table constraint |
| Serializers.ProfileUpdateRefusals | backend_helper_course/api/serializers.py:170-175 | a sent null photo is a server error (the photo validator reads `None.name`), the city error happens iff otherwise a non-empty city is not recognised, the vector error iff the changed row breaks the vector length rule; all three leave the tables unchanged (see also users/models.py lines 13-17) |
| Serializers.ProfileUpdateFacts | backend_helper_course/api/serializers.py:165-193 | an update changes only the caller's row and the caller's ratings |
| Serializers.UpdatedIsRecalc | backend_helper_course/api/serializers.py:179-192 | a successful update is the changed row plus upserts followed by `recalc_interest_vector` |
| Serializers.ProfileUpdatedRow | backend_helper_course/api/serializers.py:166-180 | after a successful update the sent names, privacy vector, city and photo are in the row, and no null photo was sent |
| Serializers.ProfileUpdatedRatings | backend_helper_course/api/serializers.py:183-192 | after a successful update, the last rating sent for each interest is at that interest's place in the caller's vector |
| Serializers.UpsertKeepsOthers | backend_helper_course/api/serializers.py:184-188 | one upsert for the caller leaves other users' ratings in the table |
| Serializers.UpsertAllStores | backend_helper_course/api/serializers.py:183-188 | after a completed loop, the last rating sent for an interest is stored |
| Serializers.UpsertAllKeeps | backend_helper_course/api/serializers.py:183-188 | a rating for an interest not sent stays |
| InterestUtils.RebuiltVector | backend_helper_course/api/utils.py:8-9 | the rebuilt vector has one slot per catalogue interest |
| InterestUtils.FillSlots | backend_helper_course/api/utils.py:16-17 | the loop fails iff some rating of the user names an interest id beyond the catalogue size; otherwise it yields `RebuiltVector` |
| InterestUtils.RecalcInterestVector | backend_helper_course/api/utils.py:7-19 | the method does `Recalc` and keeps the tables valid |
| InterestUtils.RecalcKeepsValid | backend_helper_course/api/utils.py:7-19 | recalculating keeps every table constraint (see also users/models.py lines 13-17) |
| InterestUtils.RecalcStoresRatings | backend_helper_course/api/utils.py:7-19 | after a saved recalculation every rating of the user sits at slot `interest_id - 1` of the vector |
| InterestUtils.RatingOfAppend | backend_helper_course/api/utils.py:10-17 | a rating row added for (user, interest) is what that slot reads; other slots are unchanged |
| InterestUtils.VectorOrZeros | backend_helper_course/api/utils.py:26-35 | a user without a vector is read as fifteen zeros |
| InterestUtils.TopSlotsSmallest | backend_helper_course/api/utils.py:40 | min(3, n) distinct slots are picked, and no slot left out differs less than a picked one |
| InterestUtils.NamesOf | backend_helper_course/api/utils.py:41-45 | a name is listed iff it belongs to an interest whose id is a picked slot plus one |
| InterestUtils.PickedIncreasing | backend_helper_course/api/utils.py:43 | the names come in increasing interest id order |
| InterestUtils.NamesAtMostSlots | backend_helper_course/api/utils.py:41-45 | with ascending ids, there are no more names than picked slots |
| InterestUtils.BuildIntroNamesAtMostThree | backend_helper_course/api/utils.py:40-46 | the introduction lists at most three interests |
| UserTasks.DeactivateInactiveUsers | backend_helper_course/users/tasks.py:9-18 | the sweep does `SweepSpec` (only the user table changes) and reports `deactivated n` with n the number of stale rows |
| UserTasks.SweepFlipsExactlyStale | backend_helper_course/users/tasks.py:11-17 | a row becomes inactive iff it was active with a last login strictly before a week ago; no other column changes and a user who never logged in is untouched |
| UserTasks.CountIsDeactivated | backend_helper_course/users/tasks.py:12-18 | the reported count is the drop in the number of active users |
| UserTasks.RerunFlipsNone | backend_helper_course/users/tasks.py:12-17 | a second sweep with the same cutoff finds nothing and changes nothing |
| UserTasks.SweepKeepsValid | backend_helper_course/users/tasks.py:12-17 | the sweep keeps every table constraint |
| Auth.AudienceRule | backend_helper_course/helper/auth.py:36-41 | for an absent, string or list `aud`, the check passes iff the client `spa` is the audience, is in the audience list, or is the authorized party |
| Auth.StringAudienceIsList | backend_helper_course/helper/auth.py:38-39 | a string audience is checked as the one-element list |
| Auth.ReadHeader | backend_helper_course/helper/auth.py:44-48 | a header not starting with `bearer ` in any case is not attempted; otherwise the token is the second whitespace field, and its absence raises |
| Auth.BearerToken | backend_helper_course/helper/auth.py:45-48 | `Bearer <token>`, the scheme in any letter case, yields exactly the token |
| Auth.NonBearerNotAttempted | backend_helper_course/helper/auth.py:45-46 | authentication returns None iff the header is not a bearer header, and then changes nothing |
| Auth.Verify | backend_helper_course/helper/auth.py:50-63 | a refused token ends in `AuthenticationFailed` or in an unmapped error |
| Auth.VerifyToken | backend_helper_course/helper/auth.py:50-63 | the `try` block computes `Verify` |
| Auth.RetryOnlyAfterBadSignature | backend_helper_course/helper/auth.py:51-55 | the key set is refetched only after a signature error, and a second signature error is an invalid token |
| Auth.FailureMessages | backend_helper_course/helper/auth.py:57-63 | `JWT expired` iff the token expired, the audience message iff the audience check fails, the invalid-token message iff the signature or token is bad; the claims are accepted iff they decode and the audience passes |
| Auth.FindUsername | backend_helper_course/helper/auth.py:69-70 | the row holding a username, or none iff no row holds it |
| Auth.Authenticate | backend_helper_course/helper/auth.py:43-80 | the method does `AuthSpec` |
| Auth.SignIn | backend_helper_course/helper/auth.py:64-80 | the method's tables and reply are `SignInSpec` of the tables before it: a server error for a missing or non-string claim or for a value longer than its column, otherwise the upsert of the user row |
| Auth.SignInFacts | backend_helper_course/helper/auth.py:64-80 | a signed-in user holds the chosen username, is active, and has the email, first and last names from the claims, each within its column width (150, 254, 150, 150 characters); an existing row keeps its other columns, otherwise a new default row is appended; no other row changes |
| Auth.SignInKeepsValid | backend_helper_course/helper/auth.py:69-79 | signing in keeps every table constraint, usernames unique included |
| Auth.TokenUserNeverSwept | backend_helper_course/helper/auth.py:69-79 | a user created by sign-in has no last login, so the inactivity sweep leaves them alone (see also users/tasks.py lines 12-17) |
| LoggingFilters.TrimBodyFilter.Filter | backend_helper_course/helper/logging_filters.py:11-17 | the record is kept; tuple arguments get their third item replaced by its string form cut to the maximum length, and nothing else changes |
| LoggingFilters.TrimOnlyThird | backend_helper_course/helper/logging_filters.py:12-16 | a tuple keeps its length and every item but the third; the third becomes a prefix of its string form, of length min(len, max) for a non-negative maximum |
| LoggingFilters.TrimIdempotent | backend_helper_course/helper/logging_filters.py:12-16 | with a non-negative maximum, filtering twice is filtering once |
| LoggingFilters.TrimNegativeShrinks | backend_helper_course/helper/logging_filters.py:14 | a maximum of -1 drops the last character on each pass, as Python slicing does, so filtering is then not idempotent |
| LoggingFilters.SecretSetLowered | backend_helper_course/helper/logging_filters.py:41 | every secret key is in lower case |
| LoggingFilters.DefaultSecrets | backend_helper_course/helper/logging_filters.py:20-30 | no keys and an empty key list both give exactly the nine default keys (see also helper/logging_filters.py line 41) |
| LoggingFilters.MaskStrCapped | backend_helper_course/helper/logging_filters.py:51-55 | with a positive cap, a substitution within the cap is returned as is, a longer one is cut to the cap and followed by the ellipsis |
| LoggingFilters.MaskStrUncapped | backend_helper_course/helper/logging_filters.py:51-55 | without a cap, or with a cap of 0, the substitution is returned whole |
| LoggingFilters.MaskObjMasks | backend_helper_course/helper/logging_filters.py:57-73 | after masking, every dictionary value under a secret key (compared in lower case) is exactly the mask, at any depth of dicts, lists and tuples |
| LoggingFilters.MaskObjShape | backend_helper_course/helper/logging_filters.py:57-73 | masking keeps dicts as dicts with the same keys, lists and tuples with their length, and other values unchanged |
| LoggingFilters.MappingArgsLost | backend_helper_course/helper/logging_filters.py:78-79 | as written, a mapping of arguments comes back as a tuple of its masked keys |
| LoggingFilters.MaskArgsAsWrittenTuple | backend_helper_course/helper/logging_filters.py:78-79 | as written, any arguments come back as a tuple: positional ones masked one by one, a mapping as one masked key name per entry, in order, with its values gone |
| LoggingFilters.MaskArgsMasked | backend_helper_course/helper/logging_filters.py:78-79 | corrected, tuple arguments stay a tuple of the same length, mapping arguments stay a mapping with the same keys, and all are masked |
| LoggingFilters.MaskSecretsFilter.constructor | backend_helper_course/helper/logging_filters.py:34-49 | the filter keeps the lower-cased secret keys, the mask, the cap and the substitution |
| LoggingFilters.MaskSecretsFilter.Filter | backend_helper_course/helper/logging_filters.py:75-83 | as written: the record is kept; a string message is masked; truthy arguments are replaced by the as-written masking (a mapping becomes the tuple of its masked keys); a dict `extra` is masked; nothing else changes |
| LoggingFilters.MaskSecretsFilter.FilterCorrected | backend_helper_course/helper/logging_filters.py:75-83 | the same filter with the intended argument masking: a mapping keeps its keys and has its values masked |

## Left out

- Sockets, channel groups and Celery: what a consumer sends to its own client is a returned value; what it sends to other clients is appended to a push log in the tables. The Celery wrappers in `dialogs/tasks.py` are not part of this model.
- Time: `created_at`, `joined_at` and `updated_at` are not stored; a later row position stands for a later timestamp, and the `created_at` of a replayed notification is not in `Consumers.Payload`. The sweep's clock is a parameter.
- JWT decoding and the key-set download are the functions `cached` and `refetched` passed to `Auth.Authenticate`; their library exceptions are the cases of `Auth.Decoded`. Reading the header bytes is not modelled; the header is a string.
- The regular expression of `MaskSecretsFilter` is the `substitute` function a filter is built with; `str()` of a non-string argument is a parameter too.
- The similarity score, the PostGIS distance and networkx `find_cliques` are parameters: `score`, `dist` and the clique function given to `Grouping.BuildGroups`. Floating point is not modelled; interest vectors hold integers.
- City geocoding is the `geocode` parameter of `Serializers.ProfileUpdate`; an exception of the geocoder is its `None`.
- Transactions and concurrency: each operation is one sequential step; only the rollback of a failed `build_groups` run is modelled.
- Fields the core does not read (bio, links, phone number and the like) are a map of column values in the user row. Rendered users, group members and messages carry ids, names, flags and text but not the photo URL string or timestamps: a photo is its stored name, and of its URL the model keeps only whether reading it succeeds (an unset photo makes the unguarded `.url` reads raise, a 500 that is modelled).
- Common.Lower: only ASCII letters are lower-cased, where Python's `lower()` also folds other scripts; this affects the bearer scheme, photo extensions and secret key names only for non-ASCII text.
- Auth.SignIn: a username, email or name claim that is not a JSON string ends in a server error, where Django would store its string form.
- InterestUtils.RecalcStoresRatings: the slot value is the single rating of the (user, interest) pair rather than a float average; with `unique_together ('user', 'interest')` the two agree.
- Without a caller location, candidate selection takes the pool in id order; the database promises no order there.
- InterestUtils.TopSlotsSmallest: among slots with equal differences the model picks the lowest slots, while NumPy's default `argsort` is not stable and promises no choice; the lemma states only what holds for any choice, but the interests named in the greeting of `Views.FirstContact` follow the model's choice.
- Db.OthersFacts: the recipient ids come from a `values_list` with no `order_by`, so the database promises no order; the model lists them in id order.
- Common.AscendingFacts: listing an id set by ascending key is the model's stand-in for the unordered `values_list` queries of the chat consumer; the database promises no order.
- Consumers.PairListed: the two users of a dialog are listed in id order; the database promises no order for that `values_list`, so `[b, a]` is as possible as `[a, b]`.
- Consumers.ReplyLikes: the match notices of a reply are created in the model's id order; the unordered `values_list` may give the other order.
- Consumers.RecipientsNotified: the new-message notifications are created in the model's id order; the unordered `values_list` may give any order.
- Grouping.GroupNameParts: `users[:3]` of an unordered filter may be any three chunk users, so the group may be named after any three of them; the model takes the three smallest ids. The membership rows of `bulk_create` are likewise written in id order.
- Views.PostMessage: a `text` that is JSON `null` or a number makes `.strip()` raise, a server error; the model takes the text as an optional string and does not express that case.
- Views.Swipe: a numeric or boolean `action` is stored by the reason column as its string form; the model takes the action as an optional string.
- LoggingFilters.MaskObjMasks: dictionary keys are strings in the model; a dict with a non-string key makes `k.lower()` raise out of the filter.
- Serializers.MatchProfilePhoto: the match list uses the corrected photo rule; as written, any candidate with a stored privacy vector makes the list answer 500 (see Findings, `Views.CardsAsWrittenFails`).
- Views.CardsFacts: the cards are those of the corrected photo rule; as written they are rendered only when no candidate has a stored privacy vector (see Findings).
- Views.MatchListFacts: a served list is that of the corrected photo rule; as written a stored privacy vector of any found user turns it into a 500 (see Findings).
- Django REST framework's own field validation between input normalisation and the update is not modelled: `Serializers.ProfileUpdate` receives the changes that passed the field checks. The project's own photo validator is modelled only for a sent null photo, which it cannot read and so answers 500; its format and size checks are `Serializers.ValidateProfilePhoto`, and the update receives only photos that passed them.

## Findings

| source | as written | input that shows it | evidently intended | confidence | as-written member | corrected member |
|---|---|---|---|---|---|---|
| backend_helper_course/helper/logging_filters.py:78-79 | `tuple(self._mask_obj(a) for a in record.args)` iterates mapping arguments by key, so a record logged with one dict argument gets a tuple of its masked key names and loses the values | `record.args == {'user': v}` gives `(mask_str('user'),)` | mask the mapping's values as `_mask_obj` masks a dict and keep it a mapping, so `%(user)s` still formats | not executed | LoggingFilters.MaskArgsAsWritten (shown by LoggingFilters.MappingArgsLost) | LoggingFilters.MaskArgs (proved by LoggingFilters.MaskArgsMasked) |
| backend_helper_course/api/serializers.py:361 | `list(obj.privacy_settings_vector or [1] * 9)` asks for the truth value of the loaded vector, a NumPy array, which raises ValueError for more than one element | a candidate whose privacy vector is stored, e.g. nine 1s, makes the match list answer 500 | read the vector as a list when it is not None, as the profile serializer does, and show the photo iff flag 0 allows it | not executed | Serializers.MatchProfilePhotoAsWritten (shown by Views.CardsAsWrittenFails) | Serializers.MatchProfilePhoto (proved by Views.CardsFacts) |
