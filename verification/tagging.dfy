/**
 Tagging in the main blueprint: `new_tag` (find-or-create every name of the
 input and attach it), `delete_tag` (detach, then drop the tag once no photo
 carries it) and the tag page `show_tag` with its two orderings.
 */
module Tagging {
  import opened Rows
  import opened Store
  import opened Ordering
  import Words

  /** The association table holds a row for the tag on some photo. */
  predicate TagInUse(tagged: set<(PhotoId, TagId)>, tagId: TagId)
  {
    exists pr :: pr in tagged && pr.1 == tagId
  }

  /** Some tag named `name` is attached to the photo. */
  ghost predicate NameAttached(db: Db, photoId: PhotoId, name: string)
  {
    exists t :: t in db.tags && t.name == name && (photoId, t.id) in db.tagged
  }

  /**
   `d` is `db` after tagging the photo with `names`: only the tag table and the
   association table grow; every new association row is for this photo and a
   tag named in `names`; every new tag carries a name of `names` that no
   existing tag had.
   */
  ghost predicate Grows(db: Db, d: Db, photoId: PhotoId, names: seq<string>)
  {
    && d.photos == db.photos && d.collects == db.collects
    && d.notifications == db.notifications && d.follows == db.follows
    && |db.tags| <= |d.tags| && d.tags[..|db.tags|] == db.tags
    && db.tagged <= d.tagged
    && (forall pr :: pr in d.tagged && pr !in db.tagged ==>
          pr.0 == photoId && exists t :: t in d.tags && t.id == pr.1 && t.name in names)
    && (forall i :: |db.tags| <= i < |d.tags| ==>
          && d.tags[i].name in names
          && (forall t :: t in db.tags ==> t.name != d.tags[i].name))
  }

  /** Every name of `names` is attached to the photo. */
  ghost predicate AllAttached(d: Db, photoId: PhotoId, names: seq<string>)
  {
    forall name :: name in names ==> NameAttached(d, photoId, name)
  }

  /** One pass of the loop in `new_tag`: reuse the tag named `name` or create it, then attach it. */
  function AttachName(db: Db, photoId: PhotoId, name: string): (d: Db)
    ensures Grows(db, d, photoId, [name])
    ensures NameAttached(d, photoId, name)
    ensures |d.tags| == |db.tags| + 1 <==> forall t :: t in db.tags ==> t.name != name
    ensures |d.tags| <= |db.tags| + 1
    ensures |d.tags| == |db.tags| + 1 ==>
      d.tags[|db.tags|] == Tag(db.nextTagId, name) && d.nextTagId == db.nextTagId + 1
    ensures |d.tags| == |db.tags| ==> d.nextTagId == db.nextTagId
  {
    match FindTagNamed(db.tags, name)
    case Some(t) =>
      db.(tagged := db.tagged + {(photoId, t.id)})
    case None =>
      var t := Tag(db.nextTagId, name);
      var d := db.(tags := db.tags + [t], nextTagId := db.nextTagId + 1, tagged := db.tagged + {(photoId, t.id)});
      assert d.tags[|db.tags|] == t;
      d
  }

  /** The loop of `new_tag` over the names of the input. */
  function AttachNames(db: Db, photoId: PhotoId, names: seq<string>): (d: Db)
    ensures Grows(db, d, photoId, names)
    ensures AllAttached(d, photoId, names)
    decreases |names|
  {
    if |names| == 0 then db
    else
      var d1 := AttachName(db, photoId, names[0]);
      var d := AttachNames(d1, photoId, names[1..]);
      GrowsTrans(db, d1, d, photoId, names);
      d
  }

  /** Tagging with the first name and then with the rest is tagging with all names. */
  lemma GrowsTrans(db: Db, d1: Db, d: Db, photoId: PhotoId, names: seq<string>)
    requires |names| > 0
    requires Grows(db, d1, photoId, [names[0]]) && NameAttached(d1, photoId, names[0])
    requires Grows(d1, d, photoId, names[1..]) && AllAttached(d, photoId, names[1..])
    ensures Grows(db, d, photoId, names) && AllAttached(d, photoId, names)
  {
    var rest := names[1..];
    assert names == [names[0]] + rest;
    PrefixIn(d1.tags, d.tags);
    assert d.tags[..|db.tags|] == db.tags by {
      assert d.tags[..|db.tags|] == d.tags[..|d1.tags|][..|db.tags|];
    }
    forall name | name in names ensures NameAttached(d, photoId, name) {
      if name !in rest {
        var t :| t in d1.tags && t.name == name && (photoId, t.id) in d1.tagged;
        assert t in d.tags;
      }
    }
    forall pr | pr in d.tagged && pr !in db.tagged
      ensures pr.0 == photoId && exists t :: t in d.tags && t.id == pr.1 && t.name in names
    {
      if pr !in d1.tagged {
        var t :| t in d.tags && t.id == pr.1 && t.name in rest;
      } else {
        var t :| t in d1.tags && t.id == pr.1 && t.name in [names[0]];
        assert t in d.tags;
      }
    }
    forall i | |db.tags| <= i < |d.tags|
      ensures d.tags[i].name in names && (forall t :: t in db.tags ==> t.name != d.tags[i].name)
    {
      if i < |d1.tags| {
        assert d.tags[i] == d1.tags[i];
      } else {
        PrefixIn(db.tags, d1.tags);
      }
    }
  }

  /**
   `new_tag`: 404 for an unknown photo, 403 for anyone but its author;
   otherwise every whitespace-separated name of `text` ends up attached to the
   photo. `formValid` is the verdict of the form's validators.
   */
  function NewTag(db: Db, user: UserId, photoId: PhotoId, text: string, formValid: bool): (r: Response)
    ensures !HasPhoto(db.photos, photoId) ==> r == Response(NotFound, db)
    ensures HasPhoto(db.photos, photoId) && user != AuthorOf(db.photos, photoId) ==> r == Response(Forbidden, db)
    ensures HasPhoto(db.photos, photoId) && user == AuthorOf(db.photos, photoId) ==>
      && r.outcome == Ok(photoId)
      && (!formValid ==> r.db == db)
      && (formValid ==> Grows(db, r.db, photoId, Words.Split(text)))
      && (formValid ==> AllAttached(r.db, photoId, Words.Split(text)))
  {
    match FindPhoto(db.photos, photoId)
    case None => Response(NotFound, db)
    case Some(photo) =>
      if user != photo.author then Response(Forbidden, db)
      else if !formValid then Response(Ok(photoId), db)
      else Response(Ok(photoId), AttachNames(db, photoId, Words.Split(text)))
  }

  lemma AttachNameValid(db: Db, photoId: PhotoId, name: string)
    requires Valid(db) && HasPhoto(db.photos, photoId)
    ensures Valid(AttachName(db, photoId, name))
  {
    var d := AttachName(db, photoId, name);
    if |d.tags| == |db.tags| + 1 {
      assert d.tags == db.tags + [Tag(db.nextTagId, name)];
      AppendDistinct(db.tags, Tag(db.nextTagId, name), TagKey);
      AppendDistinct(db.tags, Tag(db.nextTagId, name), TagName);
    } else {
      assert d.tags == db.tags;
    }
    forall pr | pr in d.tagged ensures HasTag(d.tags, pr.1) {
      if pr !in db.tagged {
        var t :| t in d.tags && t.id == pr.1 && t.name == name;
      } else {
        var t :| t in db.tags && t.id == pr.1;
        assert t in d.tags;
      }
    }
  }

  /** `new_tag` keeps every integrity constraint, tag-name uniqueness included. */
  lemma {:induction false} AttachNamesValid(db: Db, photoId: PhotoId, names: seq<string>)
    requires Valid(db) && HasPhoto(db.photos, photoId)
    ensures Valid(AttachNames(db, photoId, names))
    decreases |names|
  {
    if |names| > 0 {
      AttachNameValid(db, photoId, names[0]);
      AttachNamesValid(AttachName(db, photoId, names[0]), photoId, names[1..]);
    }
  }

  /** `new_tag` keeps every integrity constraint, on every path through the handler. */
  lemma NewTagValid(db: Db, user: UserId, photoId: PhotoId, text: string, formValid: bool)
    requires Valid(db)
    ensures Valid(NewTag(db, user, photoId, text, formValid).db)
  {
    if HasPhoto(db.photos, photoId) && user == AuthorOf(db.photos, photoId) && formValid {
      AttachNamesValid(db, photoId, Words.Split(text));
    }
  }

  /** Tag names are unique: two tags with the same name are the same tag. */
  lemma UniqueTagName(tags: seq<Tag>, a: Tag, b: Tag)
    requires DistinctBy(tags, TagName)
    requires a in tags && b in tags && a.name == b.name
    ensures a == b
  {
    var i :| 0 <= i < |tags| && tags[i] == a;
    var j :| 0 <= j < |tags| && tags[j] == b;
  }

  /**
   After `new_tag` on a valid store, every name of the input is attached to
   the photo through exactly one tag, and names stay unique.
   */
  lemma NewTagAttachesOnce(db: Db, user: UserId, photoId: PhotoId, text: string, name: string)
    requires Valid(db) && HasPhoto(db.photos, photoId) && user == AuthorOf(db.photos, photoId)
    requires name in Words.Split(text)
    ensures var d := NewTag(db, user, photoId, text, true).db;
      && Valid(d)
      && exists t :: t in d.tags && t.name == name && (photoId, t.id) in d.tagged
           && forall u :: u in d.tags && u.name == name ==> u == t
  {
    var d := NewTag(db, user, photoId, text, true).db;
    AttachNamesValid(db, photoId, Words.Split(text));
    var t :| t in d.tags && t.name == name && (photoId, t.id) in d.tagged;
    forall u | u in d.tags && u.name == name ensures u == t {
      UniqueTagName(d.tags, u, t);
    }
  }

  /** Tagging twice with the same names changes nothing the second time. */
  lemma AttachNamesIdempotent(db: Db, photoId: PhotoId, names: seq<string>)
    requires Valid(db) && HasPhoto(db.photos, photoId)
    ensures var d := AttachNames(db, photoId, names); AttachNames(d, photoId, names) == d
  {
    AttachNamesValid(db, photoId, names);
    AttachAttached(AttachNames(db, photoId, names), photoId, names);
  }

  /** Attaching names that are already attached changes nothing. */
  lemma {:induction false} AttachAttached(d: Db, photoId: PhotoId, names: seq<string>)
    requires DistinctBy(d.tags, TagName)
    requires forall name :: name in names ==> NameAttached(d, photoId, name)
    ensures AttachNames(d, photoId, names) == d
    decreases |names|
  {
    if |names| > 0 {
      AttachNameNoop(d, photoId, names[0]);
      AttachAttached(d, photoId, names[1..]);
    }
  }

  lemma AttachNameNoop(d: Db, photoId: PhotoId, name: string)
    requires DistinctBy(d.tags, TagName)
    requires NameAttached(d, photoId, name)
    ensures AttachName(d, photoId, name) == d
  {
    var t :| t in d.tags && t.name == name && (photoId, t.id) in d.tagged;
    var f := FindTagNamed(d.tags, name).value;
    UniqueTagName(d.tags, f, t);
  }

  /**
   `delete_tag`: 404 for an unknown photo or tag, 403 for anyone but the
   photo's author, a server error when the tag is not on the photo
   (`list.remove` raises); otherwise the tag leaves that photo only, and the
   tag itself is deleted exactly when no photo carries it any more.
   */
  function DeleteTag(db: Db, user: UserId, photoId: PhotoId, tagId: TagId): (r: Response)
    ensures !HasPhoto(db.photos, photoId) || !HasTag(db.tags, tagId) ==> r == Response(NotFound, db)
    ensures HasPhoto(db.photos, photoId) && HasTag(db.tags, tagId) && user != AuthorOf(db.photos, photoId) ==>
      r == Response(Forbidden, db)
    ensures HasPhoto(db.photos, photoId) && HasTag(db.tags, tagId) && user == AuthorOf(db.photos, photoId) ==>
      if (photoId, tagId) !in db.tagged then r == Response(ServerError, db)
      else
        && r.outcome == Ok(photoId)
        && r.db.tagged == db.tagged - {(photoId, tagId)}
        && (HasTag(r.db.tags, tagId) <==> TagInUse(r.db.tagged, tagId))
        && (forall t :: t in db.tags && t.id != tagId ==> t in r.db.tags)
        && (forall t :: t in r.db.tags ==> t in db.tags)
        && r.db == db.(tagged := r.db.tagged, tags := r.db.tags)
  {
    if !HasPhoto(db.photos, photoId) || !HasTag(db.tags, tagId) then Response(NotFound, db)
    else if user != AuthorOf(db.photos, photoId) then Response(Forbidden, db)
    else if (photoId, tagId) !in db.tagged then Response(ServerError, db)
    else
      var tagged := db.tagged - {(photoId, tagId)};
      var tags := if TagInUse(tagged, tagId) then db.tags else Keep(db.tags, (t: Tag) => t.id != tagId);
      Response(Ok(photoId), db.(tagged := tagged, tags := tags))
  }

  /** `delete_tag` keeps every integrity constraint; in particular no orphan row is left behind. */
  lemma DeleteTagValid(db: Db, user: UserId, photoId: PhotoId, tagId: TagId)
    requires Valid(db)
    ensures Valid(DeleteTag(db, user, photoId, tagId).db)
  {
    var d := DeleteTag(db, user, photoId, tagId).db;
    if d != db && d.tags != db.tags {
      KeepDistinct(db.tags, (t: Tag) => t.id != tagId, TagKey);
      KeepDistinct(db.tags, (t: Tag) => t.id != tagId, TagName);
      forall pr | pr in d.tagged ensures HasTag(d.tags, pr.1) {
        var t :| t in db.tags && t.id == pr.1;
        assert t in d.tags;
      }
    }
  }

  /** Adding a tag by name and removing it again restores the association table. */
  lemma NewThenDeleteTag(db: Db, user: UserId, photoId: PhotoId, name: string)
    requires Valid(db) && HasPhoto(db.photos, photoId) && user == AuthorOf(db.photos, photoId)
    requires Words.IsWord(name)
    requires forall t :: t in db.tags && t.name == name ==> (photoId, t.id) !in db.tagged
    ensures var d := NewTag(db, user, photoId, name, true).db;
      exists t :: t in d.tags && t.name == name &&
        DeleteTag(d, user, photoId, t.id).db.tagged == db.tagged
  {
    Words.SplitJoin([name]);
    var d := NewTag(db, user, photoId, name, true).db;
    assert d == AttachName(db, photoId, name) by {
      assert AttachNames(db, photoId, [name]) == AttachNames(AttachName(db, photoId, name), photoId, []);
    }
    var t := AttachNameAdds(db, photoId, name);
    assert HasTag(d.tags, t.id);
    assert DeleteTag(d, user, photoId, t.id).db.tagged == d.tagged - {(photoId, t.id)};
  }

  /** Attaching a name not yet on the photo adds exactly one association row. */
  lemma AttachNameAdds(db: Db, photoId: PhotoId, name: string) returns (t: Tag)
    requires Valid(db)
    requires forall t :: t in db.tags && t.name == name ==> (photoId, t.id) !in db.tagged
    ensures var d := AttachName(db, photoId, name);
      t in d.tags && t.name == name && (photoId, t.id) !in db.tagged && d.tagged == db.tagged + {(photoId, t.id)}
  {
    match FindTagNamed(db.tags, name)
    case Some(u) =>
      t := u;
    case None =>
      t := Tag(db.nextTagId, name);
      assert AttachName(db, photoId, name).tags == db.tags + [t];
  }

  /** The rows of the photo table that carry the tag (`Photo.query.with_parent(tag)`). */
  function CarriesTag(tagged: set<(PhotoId, TagId)>, tagId: TagId): Photo -> bool
  {
    (p: Photo) => (p.id, tagId) in tagged
  }

  /** The sort key of `photos.sort(key=lambda x: len(x.collectors))`. */
  function ByCollects(collects: seq<Collect>): Photo -> int
  {
    (p: Photo) => CollectorCount(collects, p.id)
  }

  datatype TagView = TagView(photos: seq<Photo>, orderRule: string)

  /**
   `Photo.query.with_parent(tag).order_by(Photo.timestamp.desc())`: exactly
   the photos carrying the tag, newest first.
   */
  function PhotosOfTag(db: Db, tagId: TagId): (r: seq<Photo>)
    ensures multiset(r) == multiset(Keep(db.photos, CarriesTag(db.tagged, tagId)))
    ensures forall p :: p in r <==> p in db.photos && (p.id, tagId) in db.tagged
    ensures NonIncreasing(r, PhotoTime)
  {
    var tagged := Keep(db.photos, CarriesTag(db.tagged, tagId));
    var r := SortDesc(tagged, PhotoTime);
    assert forall p :: p in r <==> p in multiset(r);
    r
  }

  /**
   `show_tag`: 404 for an unknown tag; otherwise the tag's photos newest
   first, re-sorted by collector count (most collected first, ties kept in
   time order) when `order` is "by_collects".
   */
  function ShowTag(db: Db, tagId: TagId, order: string): (r: Option<TagView>)
    ensures r.None? <==> !HasTag(db.tags, tagId)
    ensures r.Some? && order != "by_collects" ==>
      r.value == TagView(PhotosOfTag(db, tagId), "time")
    ensures r.Some? && order == "by_collects" ==>
      && r.value.orderRule == "collects"
      && multiset(r.value.photos) == multiset(PhotosOfTag(db, tagId))
      && NonIncreasing(r.value.photos, ByCollects(db.collects))
      && StableFor(r.value.photos, PhotosOfTag(db, tagId), ByCollects(db.collects))
  {
    if !HasTag(db.tags, tagId) then None
    else
      var byTime := PhotosOfTag(db, tagId);
      if order == "by_collects" then
        SortDescStable(byTime, ByCollects(db.collects));
        Some(TagView(SortDesc(byTime, ByCollects(db.collects)), "collects"))
      else
        Some(TagView(byTime, "time"))
  }

  /** Re-sorting by collectors keeps the page's photos: same set, same tag. */
  lemma ShowTagByCollectsPhotos(db: Db, tagId: TagId)
    requires HasTag(db.tags, tagId)
    ensures forall p :: p in ShowTag(db, tagId, "by_collects").value.photos <==>
      p in db.photos && (p.id, tagId) in db.tagged
  {
    var r := ShowTag(db, tagId, "by_collects").value.photos;
    assert forall p :: p in r <==> p in multiset(r);
    assert forall p :: p in PhotosOfTag(db, tagId) <==> p in multiset(PhotosOfTag(db, tagId));
  }
}
