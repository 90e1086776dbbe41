# Albumy main blueprint, modelled in Dafny

This project models the request handlers of Albumy's main blueprint
(`Albumy/albumy/blueprints/main.py`) as pure transitions over a relational
store. Each handler is a function from (store, current user, request
arguments) to a `Response`. A `Response` pairs an `Outcome` with the new store.

`Outcome` stands in for the response layer:
- `Ok(photo)`: a redirect to a photo page.
- `InfoNoOp(message, photo)`: an info flash and a redirect to the same photo, with the store unchanged.
- `ToProfile(author)`: a redirect to the author's profile.
- `ToNotifications`: a redirect to the notification list.
- `Forbidden` (403), `NotFound` (404), and `ServerError` for an unhandled exception.

The model is split into modules:
- `Rows` holds the query primitives: filter (`Keep`), `first()` (`Find`), bulk update (`Update`) and key uniqueness (`DistinctBy`).
- `Ordering` is a stable sort for `ORDER BY ... DESC/ASC` and for `list.sort(key=..., reverse=True)`.
- `Store` holds the rows, the lookups and the schema invariant `Valid`.
- `Words` models `str.split()`.
- `PhotoPages` covers sibling navigation, `delete_photo` and `report_photo`.
- `Tagging` covers `new_tag`, `delete_tag` and `show_tag`.
- `Collecting` covers `collect`, `uncollect` and `show_collectors`.
- `Notifications` covers the list, `read_notification` and `read_all_notification`.
- `Feed` covers `index`.

The store has these tables:
- photos `(id, author, timestamp, flag)`
- tags `(id, name)`, where the name is unique
- the photo/tag association table, as a set of pairs
- collect rows `(collector, photo, timestamp)`
- notifications `(id, receiver, message, isRead, timestamp)`
- follows, as a set of (follower, followed) pairs

Tables are sequences in storage order. Primary keys, the unique tag name, the
one-collect-row-per-pair rule and the foreign keys together form
`Store.Valid`. Each mutating handler has a lemma showing it preserves `Valid`.

Three behaviours of the code are worth stating explicitly:
- Deleting a photo removes its association rows and its collect rows. Unlike
  `delete_tag` (main.py:197-199), `delete_photo` does not delete tags left
  without photos.
- `delete_tag` on a tag that is not on the photo is a server error, because
  `list.remove` raises at main.py:194 after the 404 and 403 checks. The store
  is unchanged, as nothing has been committed.
- `main.py` does not reject an empty tag text itself: line 173 only consults
  `validate_on_submit`. What `TagForm` accepts is the `formValid` argument of
  `Tagging.NewTag`. A text made only of whitespace that is accepted attaches
  nothing.

## Model

| member | source | states |
|---|---|---|
| PhotoPages.NextSibling | Albumy/albumy/blueprints/main.py:102-103 | the result is the author's photo with the least id strictly above the given id; `None` exactly when the author has no photo above it |
| PhotoPages.PreviousSibling | Albumy/albumy/blueprints/main.py:112-113 | the result is the author's photo with the greatest id strictly below the given id; `None` exactly when the author has no photo below it |
| PhotoPages.PhotoNext | Albumy/albumy/blueprints/main.py:99-107 | 404 exactly for an unknown photo; the "already the last one" info with no move exactly when the author has no later photo; otherwise a redirect to the author's next photo by id. The handler only reads the store. |
| PhotoPages.PhotoPrevious | Albumy/albumy/blueprints/main.py:109-117 | 404 exactly for an unknown photo; the "already first one" info exactly when the author has no earlier photo; otherwise a redirect to the author's previous photo by id |
| PhotoPages.NextOfPrevious | Albumy/albumy/blueprints/main.py:99-117 | stepping to the previous photo and then to the next one returns to the starting photo |
| PhotoPages.PreviousOfNext | Albumy/albumy/blueprints/main.py:99-117 | stepping to the next photo and then to the previous one returns to the starting photo |
| PhotoPages.SiblingsAfterRemoval | Albumy/albumy/blueprints/main.py:126-134 | after the photo's row is deleted, the author has an earlier (later) photo exactly when it had one before, and a sibling found afterwards was that sibling before the deletion |
| PhotoPages.TargetAfterDelete | Albumy/albumy/blueprints/main.py:130-137 | the target is the previous sibling if one exists, else the next one, else the author's profile; a photo target is never the deleted id and is still stored |
| PhotoPages.DeletePhoto | Albumy/albumy/blueprints/main.py:119-138 | 404 and 403 leave the store unchanged; otherwise the photo is gone, every other photo stays, its tag links and collect rows are gone, the tag table (with its id counter), notifications and follows are untouched, and the redirect follows the previous/next/profile rule |
| PhotoPages.DeletePhotoValid | Albumy/albumy/blueprints/main.py:126-127 | deleting a photo leaves no association or collect row pointing at a missing photo, and keys stay unique |
| PhotoPages.DeletePhotoAsWritten | Albumy/albumy/blueprints/main.py:119-138 | the store afterwards is exactly the intended handler's, deletion committed; the outcome is a server error exactly when the author deletes a photo that has an earlier photo by the same author, and otherwise equals the intended outcome |
| PhotoPages.DeleteSecondPhotoAsWrittenFails | Albumy/albumy/blueprints/main.py:130-138 | with photos 1 and 2 of one author, deleting 2 ends in a server error as written, where the intended redirect is to photo 1 |
| PhotoPages.ReportPhoto | Albumy/albumy/blueprints/main.py:140-148 | 404 leaves the store unchanged; otherwise the reported photo's flag grows by exactly one, every other row keeps its flag, and no other column or table changes |
| PhotoPages.FlagPhotoTotal | Albumy/albumy/blueprints/main.py:145 | with unique photo ids, flagging a photo raises the sum of all flags by one if the photo exists and by zero otherwise |
| PhotoPages.ReportAddsOneFlag | Albumy/albumy/blueprints/main.py:145 | in a valid store a report adds exactly one to the total number of reports |
| PhotoPages.ReportPhotoValid | Albumy/albumy/blueprints/main.py:145-146 | a report keeps every integrity constraint |
| Words.Split | Albumy/albumy/blueprints/main.py:174 | every piece is non-empty and has no whitespace, and the pieces concatenated are the non-whitespace characters of the input in order |
| Words.SplitJoin | Albumy/albumy/blueprints/main.py:174 | splitting words joined by single spaces gives back exactly those words |
| Words.SplitWord | Albumy/albumy/blueprints/main.py:174 | a single word without whitespace splits into itself |
| Words.SplitAllSpace | Albumy/albumy/blueprints/main.py:174 | a text made only of whitespace splits into no names |
| Words.SplitAtSpace | Albumy/albumy/blueprints/main.py:174 | every whitespace character is a break: the pieces of `a + [c] + b` are the pieces of `a` followed by the pieces of `b`, so together with the two lemmas above the pieces are exactly the maximal whitespace-free runs |
| Words.SplitSunsetBeach | Albumy/albumy/blueprints/main.py:174 | "sunset beach" splits into "sunset" and "beach" |
| Tagging.AttachName | Albumy/albumy/blueprints/main.py:175-182 | afterwards a tag with the name is on the photo; a new tag, with the next id, is created exactly when no tag has that name; only the tag and association tables change |
| Tagging.AttachNames | Albumy/albumy/blueprints/main.py:174-182 | after the loop, every name is on the photo; new tags carry only names of the input that no earlier tag had; new association rows link only this photo to tags named in the input |
| Tagging.NewTag | Albumy/albumy/blueprints/main.py:165-185 | 404 and 403 leave the store unchanged; an invalid form changes nothing; otherwise every whitespace-separated name of the text ends up on the photo, and only tags and links are added |
| Tagging.NewTagValid | Albumy/albumy/blueprints/main.py:165-185 | `new_tag` keeps every integrity constraint on every path: tag ids and names stay unique, ids stay below the counter, and every link points at a stored photo and tag |
| Tagging.AttachNameValid | Albumy/albumy/blueprints/main.py:175-182 | attaching one name keeps tag ids and names unique and every link pointing at a stored photo and tag |
| Tagging.AttachNamesValid | Albumy/albumy/blueprints/main.py:174-182 | the whole `new_tag` loop keeps every integrity constraint, tag-name uniqueness included |
| Tagging.UniqueTagName | Albumy/albumy/blueprints/main.py:175-179 | in a table with unique names, two tags with the same name are the same tag |
| Tagging.NewTagAttachesOnce | Albumy/albumy/blueprints/main.py:174-182 | after `new_tag` on a valid store, each input name is on the photo through exactly one tag |
| Tagging.AttachNamesIdempotent | Albumy/albumy/blueprints/main.py:174-182 | tagging a photo a second time with the same names changes nothing |
| Tagging.AttachAttached | Albumy/albumy/blueprints/main.py:180-182 | names already on the photo are neither re-created nor re-attached |
| Tagging.AttachNameNoop | Albumy/albumy/blueprints/main.py:175-182 | a name already on the photo finds its existing tag and leaves the store as it was |
| Tagging.DeleteTag | Albumy/albumy/blueprints/main.py:187-201 | 404 for an unknown photo or tag and 403 for a non-author, both with the store unchanged; a tag not on the photo is a server error with the store unchanged; otherwise exactly that link goes, other tags stay, and the tag survives exactly when some photo still carries it |
| Tagging.DeleteTagValid | Albumy/albumy/blueprints/main.py:194-199 | removing a tag keeps every integrity constraint: no link is left to a deleted tag |
| Tagging.NewThenDeleteTag | Albumy/albumy/blueprints/main.py:165-201 | adding a name the photo did not carry and then deleting that tag restores the association table |
| Tagging.AttachNameAdds | Albumy/albumy/blueprints/main.py:175-182 | attaching a name the photo does not carry adds exactly one link, to a tag of that name |
| Tagging.PhotosOfTag | Albumy/albumy/blueprints/main.py:210 | the result holds exactly the photos carrying the tag, each as often as in the photo table, newest first |
| Tagging.ShowTag | Albumy/albumy/blueprints/main.py:203-217 | 404 exactly for an unknown tag; the time order by default; with "by_collects", a permutation of the time-ordered photos that is non-increasing in collector count, keeps time order among equal counts, and reports the "collects" rule |
| Tagging.ShowTagByCollectsPhotos | Albumy/albumy/blueprints/main.py:213-215 | re-sorting by collectors shows exactly the photos carrying the tag |
| Ordering.SortDesc | Albumy/albumy/blueprints/main.py:210-214 | the result is a permutation of the input with the same length, non-increasing in the key |
| Ordering.SortAsc | Albumy/albumy/blueprints/main.py:248 | the result is a permutation of the input, non-decreasing in the key |
| Ordering.SortDescStable | Albumy/albumy/blueprints/main.py:214 | the sort is stable: rows with equal keys keep their input order |
| Ordering.SortDescUnique | Albumy/albumy/blueprints/main.py:214 | any stable, non-increasing permutation of the input is exactly the sorted result, so the order of the page is fully determined |
| Collecting.CollectPhoto | Albumy/albumy/blueprints/main.py:219-230 | 404 leaves the store unchanged; an already collected pair gives the "Already collected." info with the store unchanged; otherwise one row for the pair is appended, earlier rows are kept, and nothing else changes; the redirect goes back to the photo |
| Collecting.UncollectPhoto | Albumy/albumy/blueprints/main.py:232-241 | 404 leaves the store unchanged; a pair not collected gives the "Not collect yet." info with the store unchanged; otherwise the pair is no longer collected, every other row stays, no row is added, and only the collect table changes |
| Collecting.CollectValid | Albumy/albumy/blueprints/main.py:225-228 | collecting keeps at most one collect row per (user, photo) pair |
| Collecting.CollectLeavesOneRow | Albumy/albumy/blueprints/main.py:228 | after a successful collect the pair has exactly one row, stamped with the request time |
| Collecting.CollectTwice | Albumy/albumy/blueprints/main.py:225-227 | a second collect of the same photo reports "Already collected." and changes nothing |
| Collecting.UncollectValid | Albumy/albumy/blueprints/main.py:236-239 | uncollecting keeps every integrity constraint |
| Collecting.CollectThenUncollect | Albumy/albumy/blueprints/main.py:224-239 | collecting a photo and then uncollecting it restores the store |
| Collecting.ShowCollectors | Albumy/albumy/blueprints/main.py:243-251 | 404 exactly for an unknown photo; otherwise exactly the photo's collect rows, as a permutation of them, earliest first |
| Notifications.ShowNotifications | Albumy/albumy/blueprints/main.py:253-264 | exactly the current user's notifications, each as often as stored, newest first; with the "unread" filter, exactly the unread ones |
| Notifications.ReadNotification | Albumy/albumy/blueprints/main.py:266-276 | 404 for an unknown notification and 403 for anyone but its receiver, both with the store unchanged; otherwise that notification becomes read, no flag goes from read to unread, and nothing else changes |
| Notifications.ReadNotificationIdempotent | Albumy/albumy/blueprints/main.py:269-274 | reading the same notification a second time changes nothing |
| Notifications.ReadKeepsReceiver | Albumy/albumy/blueprints/main.py:273 | reading a notification keeps it in the store with the same receiver |
| Notifications.ReceiverUnique | Albumy/albumy/blueprints/main.py:269-270 | with unique notification ids, the receiver the lookup finds is the receiver of the row carrying that id |
| Notifications.ReadAllNotifications | Albumy/albumy/blueprints/main.py:278-285 | afterwards every notification of the user is read; every other notification, and every other column and table, is unchanged |
| Notifications.ReadAllThenNoUnread | Albumy/albumy/blueprints/main.py:278-285 | after marking all read, the user's unread list is empty |
| Notifications.ReadValid | Albumy/albumy/blueprints/main.py:273-283 | both read handlers keep every integrity constraint |
| Feed.FollowedPhotos | Albumy/albumy/blueprints/main.py:24-25 | exactly the photos whose author the user follows, each as often as stored, newest first |
| Feed.Index | Albumy/albumy/blueprints/main.py:21-32 | no feed exactly for an anonymous visitor; for a signed-in user, exactly the followed authors' photos, each as often as stored, newest first |
| Feed.NoFollowsNoFeed | Albumy/albumy/blueprints/main.py:24-25 | a user who follows nobody gets an empty feed |

## Left out

- Upload and file serving (`upload`, `get_image`, `get_avatar`, lines 63-90) are left out. They are filesystem I/O, random file names and image resizing.
- Search (lines 43-61) is left out because it is delegated to a full-text index.
- `explore` (lines 34-37) is left out because it uses database-random ordering.
- `about` (lines 39-41) is left out: its body is `pass`, so it returns no response at all.
- The rendering part of `show_photo` is left out: it only renders a template.
- `edit_description` (lines 150-163) is left out: it is a bare assignment with no redirect on an invalid form.
- Pagination is not modelled: the listings return the whole filtered, ordered result. `page` and `per_page` are library behaviour.
- Tagging.ShowTag: re-sorts the whole tag listing rather than one page of it, because pagination is not modelled.
- The response layer (`flash`, `render_template`, `url_for`, `redirect`) appears only as `Outcome` values and their message constants.
- The access decorators are not modelled. `login_required` comes from Flask-Login (main.py:7). `confirm_required` and `permission_required('COLLECT')` come from `albumy/decorators.py` (main.py:11), which is not part of this model. Each handler is modelled for a request that passed them, with the `user` argument as the authenticated user.
- The form validators of `TagForm` are not modelled because `albumy/forms/main.py` is not part of this model. Their verdict is the `formValid` argument of `Tagging.NewTag`.
- `User.collect`, `User.uncollect`, `User.is_collecting`, the `Photo.collectors` relation and the delete cascades come from `albumy/models.py`, which is not part of this model. They are modelled as an append, a filter and a membership test on the collect table. Deleting a photo removes its links and collect rows.
- Each request is modelled as one atomic step. The code commits several times within some requests: `new_tag` commits once per created tag and once per attached tag (main.py:179, 182), and `delete_tag` commits once, and a second time when it deletes the tag it left without photos (main.py:195, 199). Concurrent requests, such as two `collect` calls on one pair racing past the `is_collecting` check, are outside the model.
- Timestamps are request parameters (`now`), not the clock.
- Words.IsSpace: covers the characters Python's `str.isspace` accepts in the Basic Multilingual Plane. Python decides this from the Unicode database at run time.
- PhotoPages.ReportPhoto: the flag is an unbounded natural number. The width of the database column is not modelled.
- The following source defects are modelled at their evident intent and not reproduced:
  - main.py:23 reads `current_user.is_authenticate`. `Feed.Index` tests whether a user is signed in.
  - main.py:248 calls `.pagination(`. `Collecting.ShowCollectors` returns the ordered collect rows.
  - main.py:276 and main.py:285 redirect to the endpoint `.show_notifications`, while the view is named `show_notification`. The model's outcome is `ToNotifications`.
  - main.py:138 is listed under Findings.
- Notification creation (the events that send notifications) and follow/unfollow are not part of this blueprint. The model takes them as existing rows.
- Other apps in the repository (the blog admin, the Todoism auth, home and todo blueprints) are not part of this model.

## Findings

| source | as written | input that shows it | evidently intended | confidence | as-written member | corrected member |
|---|---|---|---|---|---|---|
| Albumy/albumy/blueprints/main.py:138 | when the deleted photo has an earlier photo by the same author, the redirect reads `photo.n.id`; the photo has no attribute `n`, so the request fails after the deletion has been committed | the author 7 has photos 1 and 2, and deletes photo 2 | redirect to the previous photo `photo_n.id`, here photo 1 | high; not executed | PhotoPages.DeletePhotoAsWritten, PhotoPages.DeleteSecondPhotoAsWrittenFails | PhotoPages.DeletePhoto |
