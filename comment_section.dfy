/**
 * The comment list and form under a post (src/app/components/blog/CommentSection.tsx):
 * `validateForm` collects an error for a blank name and one for a blank
 * comment, a submit that passes it sends the form as typed, and a comment the
 * server accepts is appended to the list and clears the form.
 */
module CommentSection {
  import opened Wrappers
  import opened JsText
  import opened Types

  /** The body of the request `handleSubmitComment` sends: the form as typed, not trimmed. */
  datatype CommentRequest = CommentRequest(postId: string, author: string, content: string)

  const AuthorMessage := "Author name is required."
  const ContentMessage := "Comment cannot be empty."

  /** The errors `validateForm` reports for the form's two inputs. */
  function CommentErrors(author: string, content: string): map<string, string> {
    var e: map<string, string> := if Trim(author) == "" then map["author" := AuthorMessage] else map[];
    if Trim(content) == "" then e["content" := ContentMessage] else e
  }

  /**
   * The name gets an error exactly when it is white space only (empty
   * included), the comment likewise, each with its own message, and there
   * are no other errors; so the form is valid exactly when both hold a
   * character other than white space.
   */
  lemma CommentErrorsExact(author: string, content: string)
    ensures "author" in CommentErrors(author, content) <==> AllSpace(author)
    ensures "content" in CommentErrors(author, content) <==> AllSpace(content)
    ensures "author" in CommentErrors(author, content) ==> CommentErrors(author, content)["author"] == AuthorMessage
    ensures "content" in CommentErrors(author, content) ==> CommentErrors(author, content)["content"] == ContentMessage
    ensures CommentErrors(author, content).Keys <= {"author", "content"}
    ensures CommentErrors(author, content) == map[] <==> !AllSpace(author) && !AllSpace(content)
  {
    if AllSpace(author) || AllSpace(content) {
      assert CommentErrors(author, content) != map[] by {
        assert "author" in CommentErrors(author, content) || "content" in CommentErrors(author, content);
      }
    }
  }

  class CommentSection {
    var comments: seq<Comment>
    var author: string
    var commentContent: string
    var formErrors: map<string, string>

    constructor()
      ensures comments == [] && author == "" && commentContent == "" && formErrors == map[]
    {
      comments, author, commentContent, formErrors := [], "", "", map[];
    }

    /** `validateForm`: builds the errors, stores them, and reports whether there were none. */
    method ValidateForm() returns (ok: bool)
      modifies this
      ensures comments == old(comments) && author == old(author) && commentContent == old(commentContent)
      ensures formErrors == CommentErrors(author, commentContent)
      ensures ok <==> formErrors == map[]
    {
      var errors: map<string, string> := map[];
      if Trim(author) == "" {
        errors := errors["author" := AuthorMessage];
      }
      if Trim(commentContent) == "" {
        errors := errors["content" := ContentMessage];
      }
      formErrors := errors;
      ok := |errors| == 0;
      if |errors| == 0 {
        assert errors.Keys == {};
      }
    }

    /**
     * The first half of `handleSubmitComment`: validates, and sends nothing
     * when that fails; otherwise the request carries the post and the form
     * exactly as typed. The comment list is not touched either way.
     */
    method SubmitComment(postId: string) returns (request: Option<CommentRequest>)
      modifies this
      ensures comments == old(comments) && author == old(author) && commentContent == old(commentContent)
      ensures formErrors == CommentErrors(author, commentContent)
      ensures request.None? <==> AllSpace(author) || AllSpace(commentContent)
      ensures request.Some? ==> request.value == CommentRequest(postId, author, commentContent)
    {
      var ok := ValidateForm();
      CommentErrorsExact(author, commentContent);
      if !ok {
        return None;
      }
      request := Some(CommentRequest(postId, author, commentContent));
    }

    /**
     * The second half, once the server has answered with the new comment: it
     * goes at the end of the list, and the form is emptied.
     */
    method CommentAdded(newComment: Comment)
      modifies this
      ensures comments == old(comments) + [newComment]
      ensures author == "" && commentContent == "" && formErrors == map[]
    {
      comments := comments + [newComment];
      author := "";
      commentContent := "";
      formErrors := map[];
    }
  }
}
