/** The first article service (src/services/articleService.ts). It works on
    the articles collection directly and catches every fault as a 500, like
    the refactored one. It differs in two decisions: an edit with a file
    writes the new image but not its id, and a delete asks the host to
    destroy the stored image id even when the article has none. */
module LegacyArticles {
  import opened Common
  import opened Media
  import opened ArticleModel
  import opened ArticleSpec
  import ArticleServices

  /** The reply texts: the refactored service's, except the one for an
      article that is not there. */
  function Message(e: ArticleEvent): (m: string)
    ensures e != ArticleMissing ==> m == ArticleServices.Message(e)
    ensures e == ArticleMissing ==> m != ArticleServices.Message(e)
  {
    match e
    case ArticleMissing => "This article doesn't exists"
    case _ => ArticleServices.Message(e)
  }

  function Render(o: Completion<ArticleReply>): ArticleReturn
  {
    match o
    case Threw(_) => ArticleReturn(InternalError, INTERNAL_SERVER_ERROR, None)
    case Returned(ArticleReply(e, a)) => ArticleReturn(Message(e), StatusOf(e), a)
  }

  /** deleteArticle as written here: the owned article's `imageId` is sent
      to the host whatever it holds, then the article is removed. */
  function LegacyDeleteArticle(t: ArticleTable, userId: string, articleId: string, accepted: bool): ArticleStep
  {
    var f := OwnedBy(articleId, userId);
    match FindArticle(t.rows, f)
    case None => Reached(t, ArticleMissing)
    case Some(a) => DeleteAfterDestroy(t, f, [a.imageId], accepted)
  }

  /** Where the owned article has an image, or there is none, the two
      deletes take the same step. */
  lemma LegacyDeleteAgreesWhenImaged(t: ArticleTable, userId: string, articleId: string, accepted: bool)
    requires FindArticle(t.rows, OwnedBy(articleId, userId)).None? ||
             FindArticle(t.rows, OwnedBy(articleId, userId)).value.imageId != ""
    ensures LegacyDeleteArticle(t, userId, articleId, accepted) == DeleteArticle(t, userId, articleId, accepted)
  {
  }

  /** For an owned article without an image, the legacy delete still asks
      the host to destroy the empty id, and when the host refuses, the
      article stays and the reply is a 500, where the refactored delete
      removes it without asking. */
  lemma {:induction false} DeleteOfImagelessArticleAsksHost(t: ArticleTable, userId: string, articleId: string, i: nat)
    requires Wf(t)
    requires i < |t.rows| && t.rows[i].id == articleId && t.rows[i].authorId == userId && t.rows[i].imageId == ""
    ensures var s := LegacyDeleteArticle(t, userId, articleId, false);
            && s.destroyed == [""]
            && s.outcome == Threw(MediaFailure) && s.table == t
    ensures var s := DeleteArticle(t, userId, articleId, false);
            && s.destroyed == []
            && s.outcome == Returned(ArticleReply(Deleted, None))
            && forall a :: a in s.table.rows ==> a.id != articleId
  {
    var f := OwnedBy(articleId, userId);
    var j := FirstSelected(t.rows, f);
    assert Selects(f, t.rows[i]);
    assert j.Some? && j.value == i;
    DeleteIsOwnerGated(t, userId, articleId, false);
  }

  /** With a file, the legacy edit stores the new image beside the old id,
      which it has just asked the host to destroy. */
  lemma {:induction false} EditLeavesDestroyedImageId(t: ArticleTable, articleId: string, e: ArticleFields, asset: Asset, i: nat)
    requires Wf(t)
    requires i < |t.rows| && t.rows[i].id == articleId && t.rows[i].imageId != ""
    ensures var s := EditPost(t, articleId, e, Uploaded(asset), true, ImageOnly);
            && s.outcome.Returned? && s.outcome.value.event == Updated
            && s.outcome.value.article == Some(s.table.rows[i])
            && s.table.rows[i].image == asset.secureUrl
            && s.table.rows[i].imageId == t.rows[i].imageId
            && s.destroyed == [t.rows[i].imageId]
  {
    SetByIdKeepsWf(t, articleId, Patch(e.title, e.content, e.category, e.tags, Some(asset.secureUrl), None));
  }

  /** An edit with a file followed by the author's delete: the host is asked
      twice to destroy the old image and never the new one, which outlives
      the article. */
  lemma {:induction false} EditThenDeleteOrphansUpload(t: ArticleTable, userId: string, articleId: string,
                                                       e: ArticleFields, asset: Asset, i: nat)
    requires Wf(t)
    requires i < |t.rows| && t.rows[i].id == articleId && t.rows[i].authorId == userId
    requires t.rows[i].imageId != "" && asset.publicId != t.rows[i].imageId
    ensures var s1 := EditPost(t, articleId, e, Uploaded(asset), true, ImageOnly);
            var s2 := LegacyDeleteArticle(s1.table, userId, articleId, true);
            && s2.outcome == Returned(ArticleReply(Deleted, None))
            && s1.destroyed + s2.destroyed == [t.rows[i].imageId, t.rows[i].imageId]
            && asset.publicId !in s1.destroyed + s2.destroyed
            && forall a :: a in s2.table.rows ==> a.id != articleId
  {
    var p := Patch(e.title, e.content, e.category, e.tags, Some(asset.secureUrl), None);
    SetByIdKeepsWf(t, articleId, p);
    EditLeavesDestroyedImageId(t, articleId, e, asset, i);
    var s1 := EditPost(t, articleId, e, Uploaded(asset), true, ImageOnly);
    var t1 := s1.table;
    assert t1 == AfterSetById(t, articleId, p).0;
    var f := OwnedBy(articleId, userId);
    assert t1.rows[i].authorId == userId && Selects(f, t1.rows[i]);
    var j := FirstSelected(t1.rows, f);
    assert j.Some? && j.value == i;
    DeleteOneRemovesOnlyTarget(t1, f);
  }

  class ArticleService {
    const model: ArticleCollection
    const media: MediaHost

    constructor (model: ArticleCollection, media: MediaHost)
      ensures this.model == model && this.media == media
    {
      this.model := model;
      this.media := media;
    }

    /** createPost by `authorId`, the request's `x-user-id` header. */
    method CreatePost(authorId: string, e: ArticleFields, upload: Upload) returns (r: ArticleReturn)
      requires model.Valid()
      modifies model
      ensures model.Valid()
      ensures var s := ArticleSpec.CreatePost(old(model.State()), authorId, e, upload);
              && r == Render(s.outcome)
              && model.State() == s.table
    {
      if upload.UploadFailed? {
        return Render(Threw(MediaFailure));
      }
      var article;
      if upload.Uploaded? {
        article := model.Create(Draft(e.title, e.content, upload.asset.secureUrl, upload.asset.publicId,
                                      e.category, e.tags, authorId));
      } else {
        article := model.Create(Draft(e.title, e.content, "", "", e.category, e.tags, authorId));
      }
      r := Render(Returned(ArticleReply(Created, Some(article))));
    }

    /** editPost: with a file, only the image is written. */
    method EditPost(articleId: string, e: ArticleFields, upload: Upload, accepted: bool) returns (r: ArticleReturn)
      requires model.Valid()
      modifies model, media
      ensures model.Valid()
      ensures var s := ArticleSpec.EditPost(old(model.State()), articleId, e, upload, accepted, ImageOnly);
              && r == Render(s.outcome)
              && model.State() == s.table
              && media.destroyed == old(media.destroyed) + s.destroyed
    {
      var existingArticle := FindArticle(model.rows, ByArticleId(articleId));
      if existingArticle.None? {
        return Render(Returned(ArticleReply(EditNotFound, None)));
      }
      var article;
      if upload.UploadFailed? {
        return Render(Threw(MediaFailure));
      } else if upload.Uploaded? {
        if existingArticle.value.imageId != "" {
          var destroyed := media.Destroy(existingArticle.value.imageId, accepted);
          if destroyed.Threw? {
            return Render(Threw(destroyed.fault));
          }
        }
        article := model.FindByIdAndUpdate(articleId, Patch(e.title, e.content, e.category, e.tags,
                                                             Some(upload.asset.secureUrl), None));
      } else {
        article := model.FindByIdAndUpdate(articleId, Patch(e.title, e.content, e.category, e.tags, None, None));
      }
      r := Render(Returned(ArticleReply(Updated, article)));
    }

    /** getArticles */
    method GetArticles(userId: string, page: int, limit: int, isCreator: bool) returns (r: ListReturn)
      requires limit > 0
      ensures r == ListingReply(ArticleSpec.GetArticles(model.State(), userId, page, limit, isCreator))
      ensures r.status == OK <==> page >= 1
      ensures r.status == OK ==> r.items.Some? && |r.items.value| <= limit
    {
      PageBelowOneRefused(model.State(), userId, page, limit, isCreator);
      var filter := if isCreator then ByAuthor(userId) else AllArticles;
      var skip := (page - 1) * limit;
      if skip < 0 {
        return ListingReply(Threw(NegativeSkip));
      }
      var listed := NewestFirst(model.rows, filter);
      var total := |listed|;
      r := ListReturn("", OK, Some(Window(listed, skip, limit)), Some(total), Some(CeilDiv(total, limit)));
    }

    /** deleteArticle: the stored image id is destroyed first, unconditionally. */
    method DeleteArticle(userId: string, articleId: string, accepted: bool) returns (r: ArticleReturn)
      requires model.Valid()
      modifies model, media
      ensures model.Valid()
      ensures var s := LegacyDeleteArticle(old(model.State()), userId, articleId, accepted);
              && r == Render(s.outcome)
              && model.State() == s.table
              && media.destroyed == old(media.destroyed) + s.destroyed
    {
      var found := FindArticle(model.rows, OwnedBy(articleId, userId));
      if found.None? {
        return Render(Returned(ArticleReply(ArticleMissing, None)));
      }
      var destroyed := media.Destroy(found.value.imageId, accepted);
      if destroyed.Threw? {
        return Render(Threw(destroyed.fault));
      }
      model.DeleteOne(OwnedBy(articleId, userId));
      r := Render(Returned(ArticleReply(Deleted, None)));
    }

    /** like */
    method Like(userId: string, articleId: string) returns (r: ArticleReturn)
      requires model.Valid()
      modifies model
      ensures model.Valid()
      ensures var s := ArticleSpec.Like(old(model.State()), userId, articleId);
              && r == Render(s.outcome) && model.State() == s.table
    {
      var found := FindArticle(model.rows, ByArticleId(articleId));
      if found.None? {
        return Render(Returned(ArticleReply(ArticleMissing, None)));
      }
      model.UpdateOne(articleId, PullOp(Dislikes, userId));
      model.UpdateOne(articleId, AddToSetOp(Likes, userId));
      r := Render(Returned(ArticleReply(Liked, None)));
    }

    /** unLike */
    method UnLike(userId: string, articleId: string) returns (r: ArticleReturn)
      requires model.Valid()
      modifies model
      ensures model.Valid()
      ensures var s := ArticleSpec.UnLike(old(model.State()), userId, articleId);
              && r == Render(s.outcome) && model.State() == s.table
    {
      var found := FindArticle(model.rows, ByArticleId(articleId));
      if found.None? {
        return Render(Returned(ArticleReply(ArticleMissing, None)));
      }
      model.UpdateOne(articleId, PullOp(Likes, userId));
      model.UpdateOne(articleId, AddToSetOp(Dislikes, userId));
      r := Render(Returned(ArticleReply(Disliked, None)));
    }

    /** block */
    method Block(userId: string, articleId: string) returns (r: ArticleReturn)
      requires model.Valid()
      modifies model
      ensures model.Valid()
      ensures var s := ArticleSpec.Block(old(model.State()), userId, articleId);
              && r == Render(s.outcome) && model.State() == s.table
    {
      var found := FindArticle(model.rows, ByArticleId(articleId));
      if found.None? {
        return Render(Returned(ArticleReply(ArticleMissing, None)));
      }
      model.UpdateOne(articleId, AddToSetOp(BlockedBy, userId));
      r := Render(Returned(ArticleReply(Blocked, None)));
    }

    /** unBlock */
    method UnBlock(userId: string, articleId: string) returns (r: ArticleReturn)
      requires model.Valid()
      modifies model
      ensures model.Valid()
      ensures var s := ArticleSpec.UnBlock(old(model.State()), userId, articleId);
              && r == Render(s.outcome) && model.State() == s.table
    {
      var found := FindArticle(model.rows, ByArticleId(articleId));
      if found.None? {
        return Render(Returned(ArticleReply(ArticleMissing, None)));
      }
      model.UpdateOne(articleId, PullOp(BlockedBy, userId));
      r := Render(Returned(ArticleReply(Unblocked, None)));
    }
  }
}
