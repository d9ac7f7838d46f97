/** The outcome of a request, in place of Django REST framework's Response
    objects: the status code families the views return. */
module Http {

  datatype Response =
    | Ok          // 200
    | Created     // 201
    | NoContent   // 204
    | BadRequest  // 400: empty cart, or a field that fails validation
    | Forbidden   // 403: a permission class or an explicit role check refused
    | NotFound    // 404: get_object_or_404 / get_object found nothing
    | MethodNotAllowed // 405: no handler for the method on that route
    | ServerError // 500: an exception the framework does not translate
}
