/** The photo routes over an in-memory photo collection: each photo document with its
    embedded comments, and one method per route handler. Every handler that changes
    the collection runs the `isAuthenticated` guard first, then validates its input,
    looks the photo (and comment) up, checks ownership, and either changes exactly one
    document or leaves the collection as it was. */
module Photos {
  import opened Http
  import opened Text
  import opened Auth

  /** A comment embedded in a photo. */
  datatype Comment = Comment(id: Id, comment: string, user_id: Id, date_time: int)

  /** A photo document: owner, image URL (`file_name`), caption, upload time and its
      comments in the order they were posted. */
  datatype Photo = Photo(
    id: Id,
    file_name: string,
    date_time: int,
    user_id: Id,
    caption: string,
    comments: seq<Comment>)

  predicate DistinctCommentIds(cs: seq<Comment>)
  {
    forall i, j :: 0 <= i < j < |cs| ==> cs[i].id != cs[j].id
  }

  predicate DistinctPhotoIds(ps: seq<Photo>)
  {
    forall i, j :: 0 <= i < j < |ps| ==> ps[i].id != ps[j].id
  }

  /** Ordered by `date_time`, newest first. */
  predicate NewestFirst(ps: seq<Photo>)
  {
    forall i, j :: 0 <= i < j < |ps| ==> ps[i].date_time >= ps[j].date_time
  }

  /** The lookup of an embedded comment by id: a linear scan that finds the first
      comment carrying that id, or reports that none does. */
  function FindComment(cs: seq<Comment>, commentId: Id): (r: Option<nat>)
    ensures r.Some? ==> r.value < |cs| && cs[r.value].id == commentId
    ensures r.Some? ==> forall j :: 0 <= j < r.value ==> cs[j].id != commentId
    ensures r.None? ==> forall j :: 0 <= j < |cs| ==> cs[j].id != commentId
  {
    if cs == [] then None
    else if cs[0].id == commentId then Some(0)
    else match FindComment(cs[1..], commentId)
      case None => None
      case Some(k) => Some(k + 1)
  }

  /** The comments without the one at index `i`, the others in their order. */
  function RemoveAt(cs: seq<Comment>, i: nat): seq<Comment>
    requires i < |cs|
  {
    cs[..i] + cs[i + 1..]
  }

  /** Removing a comment from a list with distinct ids keeps the ids distinct, keeps
      every other comment, and leaves no comment with the removed id behind. */
  lemma RemoveAtDropsOnlyThatComment(cs: seq<Comment>, i: nat)
    requires i < |cs| && DistinctCommentIds(cs)
    ensures DistinctCommentIds(RemoveAt(cs, i))
    ensures |RemoveAt(cs, i)| == |cs| - 1
    ensures forall c :: c in RemoveAt(cs, i) <==> c in cs && c.id != cs[i].id
    ensures FindComment(RemoveAt(cs, i), cs[i].id).None?
  {
  }

  /** Appending a comment whose id is not yet used keeps the ids distinct. */
  lemma AppendKeepsIdsDistinct(cs: seq<Comment>, c: Comment)
    requires DistinctCommentIds(cs) && FindComment(cs, c.id).None?
    ensures DistinctCommentIds(cs + [c])
  {
  }

  /** Rewriting one comment's text keeps the comment ids, so they stay distinct. */
  lemma RewriteKeepsIdsDistinct(cs: seq<Comment>, i: nat, text: string)
    requires i < |cs| && DistinctCommentIds(cs)
    ensures DistinctCommentIds(cs[i := cs[i].(comment := text)])
  {
  }

  /** Inserts a photo into a newest-first list, after every photo at least as new. */
  function InsertNewestFirst(ps: seq<Photo>, p: Photo): seq<Photo>
  {
    if ps == [] || ps[0].date_time < p.date_time then [p] + ps
    else [ps[0]] + InsertNewestFirst(ps[1..], p)
  }

  /** Insertion adds that photo and nothing else. */
  lemma {:induction false} InsertAddsOnlyThatPhoto(ps: seq<Photo>, p: Photo)
    ensures |InsertNewestFirst(ps, p)| == |ps| + 1
    ensures forall q :: q in InsertNewestFirst(ps, p) <==> q in ps || q == p
  {
    if ps != [] && ps[0].date_time >= p.date_time {
      InsertAddsOnlyThatPhoto(ps[1..], p);
      assert ps == [ps[0]] + ps[1..];
    }
  }

  lemma ConsNewestFirst(x: Photo, ps: seq<Photo>)
    requires NewestFirst(ps)
    requires forall q :: q in ps ==> q.date_time <= x.date_time
    ensures NewestFirst([x] + ps)
  {
  }

  lemma ConsDistinctPhotoIds(x: Photo, ps: seq<Photo>)
    requires DistinctPhotoIds(ps)
    requires forall q :: q in ps ==> q.id != x.id
    ensures DistinctPhotoIds([x] + ps)
  {
  }

  /** Insertion keeps a list newest-first. */
  lemma {:induction false} InsertKeepsNewestFirst(ps: seq<Photo>, p: Photo)
    requires NewestFirst(ps)
    ensures NewestFirst(InsertNewestFirst(ps, p))
  {
    if ps == [] || ps[0].date_time < p.date_time {
      ConsNewestFirst(p, ps);
    } else {
      var tail := ps[1..];
      InsertKeepsNewestFirst(tail, p);
      InsertAddsOnlyThatPhoto(tail, p);
      forall q | q in tail ensures q.date_time <= ps[0].date_time {
        var k :| 0 <= k < |tail| && tail[k] == q;
        assert ps[k + 1] == q;
      }
      ConsNewestFirst(ps[0], InsertNewestFirst(tail, p));
    }
  }

  /** Insertion of a photo whose id is new keeps the ids distinct. */
  lemma {:induction false} InsertKeepsIdsDistinct(ps: seq<Photo>, p: Photo)
    requires DistinctPhotoIds(ps)
    requires forall q :: q in ps ==> q.id != p.id
    ensures DistinctPhotoIds(InsertNewestFirst(ps, p))
  {
    if ps == [] || ps[0].date_time < p.date_time {
      ConsDistinctPhotoIds(p, ps);
    } else {
      var tail := ps[1..];
      assert forall q :: q in tail ==> q in ps;
      InsertKeepsIdsDistinct(tail, p);
      InsertAddsOnlyThatPhoto(tail, p);
      forall q | q in tail ensures q.id != ps[0].id {
        var k :| 0 <= k < |tail| && tail[k] == q;
        assert ps[k + 1] == q;
      }
      ConsDistinctPhotoIds(ps[0], InsertNewestFirst(tail, p));
    }
  }

  /** Each photo is stored under its own id, and the comments of a photo have
      distinct ids. */
  ghost predicate WellFormed(photos: map<Id, Photo>)
  {
    forall id :: id in photos ==> photos[id].id == id && DistinctCommentIds(photos[id].comments)
  }

  /** Storing a photo under its own id, with distinct comment ids, keeps the
      collection well formed. */
  lemma StoreKeepsWellFormed(photos: map<Id, Photo>, p: Photo)
    requires WellFormed(photos) && DistinctCommentIds(p.comments)
    ensures WellFormed(photos[p.id := p])
  {
  }

  class PhotoStore {
    /** The photo collection, by document id. */
    var photos: map<Id, Photo>

    /** Each photo is stored under its own id, and the comments of a photo have
        distinct ids. */
    ghost predicate Valid()
      reads this
    {
      WellFormed(photos)
    }

    constructor ()
      ensures Valid() && photos == map[]
    {
      photos := map[];
    }

    /** GET /users/:userId/photos: exactly the photos owned by `userId`, each once,
        with the "no photos yet" notice only when there are none. */
    method ListByUser(userId: Id) returns (result: seq<Photo>, emptyNotice: bool)
      requires Valid()
      ensures forall p :: p in result <==> p.id in photos && photos[p.id] == p && p.user_id == userId
      ensures DistinctPhotoIds(result)
      ensures emptyNotice <==> result == []
    {
      result := [];
      var rest := photos.Keys;
      while rest != {}
        invariant rest <= photos.Keys
        invariant forall p :: p in result <==> p.id in photos && p.id !in rest && photos[p.id] == p && p.user_id == userId
        invariant DistinctPhotoIds(result)
        decreases rest
      {
        var id :| id in rest;
        if photos[id].user_id == userId {
          result := result + [photos[id]];
        }
        rest := rest - {id};
      }
      emptyNotice := result == [];
    }

    /** GET /photos: every photo, each once, newest first, with the "no photos yet"
        notice only when there are none. */
    method ListAll() returns (result: seq<Photo>, emptyNotice: bool)
      requires Valid()
      ensures forall p :: p in result <==> p.id in photos && photos[p.id] == p
      ensures DistinctPhotoIds(result)
      ensures NewestFirst(result)
      ensures emptyNotice <==> result == []
    {
      result := [];
      var rest := photos.Keys;
      while rest != {}
        invariant rest <= photos.Keys
        invariant forall p :: p in result <==> p.id in photos && p.id !in rest && photos[p.id] == p
        invariant DistinctPhotoIds(result) && NewestFirst(result)
        decreases rest
      {
        var id :| id in rest;
        InsertAddsOnlyThatPhoto(result, photos[id]);
        InsertKeepsNewestFirst(result, photos[id]);
        InsertKeepsIdsDistinct(result, photos[id]);
        result := InsertNewestFirst(result, photos[id]);
        rest := rest - {id};
      }
      emptyNotice := result == [];
    }

    /** POST /photos: store a new photo owned by the session user. Without a file the
        request is refused with 400. Otherwise the image goes to the object store under
        `photos/<owner>-<millis><ext>`, and the new photo has that object's URL, the
        owner, the caption or "" when none was given, and no comments. The new id and
        both clock readings (`Date.now()` for the key, `new Date()` for `date_time`)
        are inputs, as are the bucket and region. */
    method Create(session: Session?, file: Option<Upload>, caption: Option<string>, newId: Id,
                  millis: nat, createdAt: int, bucket: string, region: string)
      returns (status: Status, photo: Option<Photo>)
      requires Valid()
      requires newId !in photos
      modifies this
      ensures Valid()
      ensures status != Ok ==> photos == old(photos) && photo == None
      ensures IsAuthenticated(session).Unauthenticated? ==> status == Unauthorized
      ensures IsAuthenticated(session).Proceed? ==>
        var owner := IsAuthenticated(session).user.id;
        if file.None? then status == BadRequest
        else
          && status == Ok
          && photo == Some(Photo(newId, UploadUrl(bucket, region, "photos", owner, millis, file.value), createdAt, owner,
                                 if caption.Some? then caption.value else "", []))
          && photos == old(photos)[newId := photo.value]
    {
      var g := IsAuthenticated(session);
      if g.Unauthenticated? {
        return Unauthorized, None;
      }
      if file.None? {
        return BadRequest, None;
      }
      var user := g.user;
      var imageUrl := UploadUrl(bucket, region, "photos", user.id, millis, file.value);
      var newPhoto := Photo(newId, imageUrl, createdAt, user.id,
                            if caption.Some? then caption.value else "", []);
      StoreKeepsWellFormed(photos, newPhoto);
      photos := photos[newId := newPhoto];
      return Ok, Some(newPhoto);
    }

    /** PATCH /photos/:photoId: a caption that is not a string is refused with 400
        before any lookup; an unknown photo gives 404; a requester who does not own the
        photo gets 403; otherwise the caption becomes exactly the given string, the
        empty string included, and nothing else changes. */
    method UpdateCaption(session: Session?, photoId: Id, caption: BodyValue)
      returns (status: Status, photo: Option<Photo>)
      requires Valid()
      modifies this
      ensures Valid()
      ensures status != Ok ==> photos == old(photos) && photo == None
      ensures IsAuthenticated(session).Unauthenticated? ==> status == Unauthorized
      ensures IsAuthenticated(session).Proceed? ==>
        var requester := IsAuthenticated(session).user.id;
        if !caption.Str? then status == BadRequest
        else if photoId !in old(photos) then status == NotFound
        else if old(photos)[photoId].user_id != requester then status == Forbidden
        else
          && status == Ok
          && photo == Some(old(photos)[photoId].(caption := caption.text))
          && photos == old(photos)[photoId := photo.value]
    {
      var g := IsAuthenticated(session);
      if g.Unauthenticated? {
        return Unauthorized, None;
      }
      var userId := g.user.id;
      if !caption.Str? {
        return BadRequest, None;
      }
      if photoId !in photos {
        return NotFound, None;
      }
      var p := photos[photoId];
      if p.user_id != userId {
        return Forbidden, None;
      }
      p := p.(caption := caption.text);
      StoreKeepsWellFormed(photos, p);
      photos := photos[photoId := p];
      return Ok, Some(p);
    }

    /** POST /photos/:photoId/comments: a missing, empty or all-whitespace comment is
        refused with 400 before any lookup; a non-string comment that is truthy makes
        `trim` throw outside the handler's `try`, so no reply is sent; an unknown photo
        gives 404. Otherwise exactly one comment by the requester is appended, whoever
        owns the photo, and the earlier comments stay as they were. The new comment id
        and the clock reading are inputs. */
    method AddComment(session: Session?, photoId: Id, comment: BodyValue, newCommentId: Id, createdAt: int)
      returns (status: Status, photo: Option<Photo>)
      requires Valid()
      requires photoId in photos ==> FindComment(photos[photoId].comments, newCommentId).None?
      modifies this
      ensures Valid()
      ensures status != Ok ==> photos == old(photos) && photo == None
      ensures IsAuthenticated(session).Unauthenticated? ==> status == Unauthorized
      ensures IsAuthenticated(session).Proceed? ==>
        var author := IsAuthenticated(session).user.id;
        if !Truthy(comment) then status == BadRequest
        else if comment.NonString? then status == Uncaught
        else if IsBlank(comment.text) then status == BadRequest
        else if photoId !in old(photos) then status == NotFound
        else
          var p := old(photos)[photoId];
          && status == Ok
          && photo == Some(p.(comments := p.comments + [Comment(newCommentId, comment.text, author, createdAt)]))
          && photos == old(photos)[photoId := photo.value]
    {
      var g := IsAuthenticated(session);
      if g.Unauthenticated? {
        return Unauthorized, None;
      }
      var userId := g.user.id;
      if !Truthy(comment) {
        return BadRequest, None;
      }
      if comment.NonString? {
        // `comment.trim` is not a function; the TypeError escapes the handler.
        return Uncaught, None;
      }
      if Trim(comment.text) == "" {
        return BadRequest, None;
      }
      if photoId !in photos {
        return NotFound, None;
      }
      var p := photos[photoId];
      var c := Comment(newCommentId, comment.text, userId, createdAt);
      AppendKeepsIdsDistinct(p.comments, c);
      p := p.(comments := p.comments + [c]);
      StoreKeepsWellFormed(photos, p);
      photos := photos[photoId := p];
      return Ok, Some(p);
    }

    /** DELETE /photos/:id: an unknown photo gives 400; a requester who does not own
        it gets 403 and the photo stays; the owner's request removes exactly that photo,
        its comments with it. */
    method DeletePhoto(session: Session?, id: Id) returns (status: Status)
      requires Valid()
      modifies this
      ensures Valid()
      ensures status != Ok ==> photos == old(photos)
      ensures IsAuthenticated(session).Unauthenticated? ==> status == Unauthorized
      ensures IsAuthenticated(session).Proceed? ==>
        var requester := IsAuthenticated(session).user.id;
        if id !in old(photos) then status == BadRequest
        else if old(photos)[id].user_id != requester then status == Forbidden
        else status == Ok && photos == old(photos) - {id}
    {
      var g := IsAuthenticated(session);
      if g.Unauthenticated? {
        return Unauthorized;
      }
      var userId := g.user.id;
      if id !in photos {
        return BadRequest;
      }
      if photos[id].user_id != userId {
        return Forbidden;
      }
      photos := photos - {id};
      return Ok;
    }

    /** DELETE /photos/:photo_id/comments/:comment_id: an unknown photo gives 400, an
        unknown comment 404, and a requester who did not write the comment 403, even
        when the requester owns the photo. Otherwise only that comment is removed and
        the others keep their order. */
    method DeleteComment(session: Session?, photoId: Id, commentId: Id) returns (status: Status)
      requires Valid()
      modifies this
      ensures Valid()
      ensures status != Ok ==> photos == old(photos)
      ensures IsAuthenticated(session).Unauthenticated? ==> status == Unauthorized
      ensures IsAuthenticated(session).Proceed? ==>
        var requester := IsAuthenticated(session).user.id;
        if photoId !in old(photos) then status == BadRequest
        else
          var p := old(photos)[photoId];
          var found := FindComment(p.comments, commentId);
          if found.None? then status == NotFound
          else if p.comments[found.value].user_id != requester then status == Forbidden
          else
            && status == Ok
            && photos == old(photos)[photoId := p.(comments := RemoveAt(p.comments, found.value))]
    {
      var g := IsAuthenticated(session);
      if g.Unauthenticated? {
        return Unauthorized;
      }
      var userId := g.user.id;
      if photoId !in photos {
        return BadRequest;
      }
      var p := photos[photoId];
      var found := FindComment(p.comments, commentId);
      if found.None? {
        return NotFound;
      }
      var i := found.value;
      if p.comments[i].user_id != userId {
        return Forbidden;
      }
      RemoveAtDropsOnlyThatComment(p.comments, i);
      p := p.(comments := RemoveAt(p.comments, i));
      StoreKeepsWellFormed(photos, p);
      photos := photos[photoId := p];
      return Ok;
    }

    /** PATCH /photos/:photo_id/comments/:comment_id: a missing, empty or all-whitespace
        `commentUp` is refused with 400 first; a truthy non-string one makes `trim`
        throw inside the `try`, which answers 500; then an unknown photo gives 400, an
        unknown comment 404, and a requester who did not write the comment 403.
        Otherwise only that comment's text changes, to `commentUp`. */
    method UpdateComment(session: Session?, photoId: Id, commentId: Id, commentUp: BodyValue)
      returns (status: Status, photo: Option<Photo>)
      requires Valid()
      modifies this
      ensures Valid()
      ensures status != Ok ==> photos == old(photos) && photo == None
      ensures IsAuthenticated(session).Unauthenticated? ==> status == Unauthorized
      ensures IsAuthenticated(session).Proceed? ==>
        var requester := IsAuthenticated(session).user.id;
        if !Truthy(commentUp) then status == BadRequest
        else if commentUp.NonString? then status == ServerError
        else if IsBlank(commentUp.text) then status == BadRequest
        else if photoId !in old(photos) then status == BadRequest
        else
          var p := old(photos)[photoId];
          var found := FindComment(p.comments, commentId);
          if found.None? then status == NotFound
          else if p.comments[found.value].user_id != requester then status == Forbidden
          else
            var i := found.value;
            && status == Ok
            && photo == Some(p.(comments := p.comments[i := p.comments[i].(comment := commentUp.text)]))
            && photos == old(photos)[photoId := photo.value]
    {
      var g := IsAuthenticated(session);
      if g.Unauthenticated? {
        return Unauthorized, None;
      }
      var userId := g.user.id;
      if !Truthy(commentUp) {
        return BadRequest, None;
      }
      if commentUp.NonString? {
        // `commentUp.trim` is not a function; the handler's `catch` answers 500.
        return ServerError, None;
      }
      if Trim(commentUp.text) == "" {
        return BadRequest, None;
      }
      if photoId !in photos {
        return BadRequest, None;
      }
      var p := photos[photoId];
      var found := FindComment(p.comments, commentId);
      if found.None? {
        return NotFound, None;
      }
      var i := found.value;
      if p.comments[i].user_id != userId {
        return Forbidden, None;
      }
      RewriteKeepsIdsDistinct(p.comments, i, commentUp.text);
      p := p.(comments := p.comments[i := p.comments[i].(comment := commentUp.text)]);
      StoreKeepsWellFormed(photos, p);
      photos := photos[photoId := p];
      return Ok, Some(p);
    }
  }
}
