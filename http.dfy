/** What a view receives and answers, reduced to what the views here decide on. */
module Http {
  /**
   * The views only test `request.method == 'POST'`, so GET stands for every
   * other method (HEAD, PUT, ...) as well.
   */
  datatype Method = GET | POST

  /** The view's answer. */
  datatype Response =
    | LoginRequired          // the `login_required` / `user_passes_test` redirect to the login page
    | Redirect(to: string)   // `redirect(<url name>)`
    | Page(template: string) // `render(request, <template>, ...)`
    | NotFound               // `Http404` from `get_object_or_404`
    | ServerError            // an uncaught exception: HTTP 500
}
