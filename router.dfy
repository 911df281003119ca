/**
 * The backend's request dispatcher: a request's path and method select one
 * of four handlers. Whether the path has a file extension (Node's
 * `path.extname(pathname) !== ''`) is a parameter, `hasExt`.
 */
module Router {

  /** The handler a request reaches, with the arguments it is given. */
  datatype Outcome =
    | StaticGet(pathname: string)
    | DataGet(pathname: string)
    | DataPost(pathname: string, body: string)
    | Failure(status: int, pathname: string, verb: string)

  /** `route`: GET on '/' or on a file goes to the static files, GET on an
      extensionless resource to the JSON data, POST on an extensionless
      resource stores the body, and anything else is answered 501. */
  function Route(hasExt: string -> bool, pathname: string, verb: string, postData: string): (r: Outcome)
    ensures r.StaticGet? <==> verb == "GET" && (pathname == "/" || hasExt(pathname))
    ensures r.DataGet? <==> verb == "GET" && pathname != "/" && !hasExt(pathname)
    ensures r.DataPost? <==> verb == "POST" && !hasExt(pathname)
    ensures r.Failure? <==> (verb != "GET" && verb != "POST") || (verb == "POST" && hasExt(pathname))
    ensures r.pathname == pathname
    ensures r.DataPost? ==> r.body == postData
    ensures r.Failure? ==> r.status == 501 && r.verb == verb
  {
    if (pathname == "/" || hasExt(pathname)) && verb == "GET" then
      StaticGet(pathname)
    else if !hasExt(pathname) && verb == "GET" then
      DataGet(pathname)
    else if !hasExt(pathname) && verb == "POST" then
      DataPost(pathname, postData)
    else
      Failure(501, pathname, verb)
  }
}
