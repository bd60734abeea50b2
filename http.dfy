/** How a route handler fails: a plain runtime error or an HTTP error response. */
module Http {
  datatype RouteError =
    | RuntimeError(message: string)
    | HttpException(statusCode: int, detail: string)

  const BadRequest: int := 400
  const NotFound: int := 404
}
