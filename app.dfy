/** The `GET /movie` route handler and the terminal error handler of the
    Express application, as pure functions from a request and the value of
    `NODE_ENV` to the status and the value handed to `res.send` or
    `res.json`. `ToJson` gives the JSON text's structure as the client
    receives it. */
module MovieApp {
  import opened JsBuiltins

  datatype Option<T> = None | Some(value: T)

  // ---------------------------------------------------------------------
  // Data

  /** The handler's allow-list, in source order and capitalisation. */
  const ValidGenres: seq<string> := [
    "Animation", "Drama", "Romantic", "Comedy", "Crime", "Thriller",
    "Adventure", "Documentary", "Horror", "Action", "Western", "Spy",
    "Final Embrace", "History", "Biography", "Musical", "Fantasy", "War",
    "Grotesque"
  ]

  /** `validGenres.toString()`: the names joined by "," with no spaces. */
  const GenreListText: string := Join(ValidGenres, ",")

  /** The body of every 400 reply; it names genres the check refuses. */
  const GenreRejectionText: string :=
    "Genre must either be Action, Puzzle, Strategy, Casual, Arcade or Card"

  /** The identifier the handler reads at the `res.json` call. */
  const ResponseIdentifier: string := "response"

  /** Message of the 500 body in production. */
  const ProductionErrorMessage: string := "server error"

  /** The query string as parsed: each key present with a string or absent.
      `country` and `avg_vote` are read by the handler and then unused. */
  datatype Request = Request(genre: Option<string>, country: Option<string>, avgVote: Option<string>)

  /** A JavaScript exception; only the kind the handler raises. */
  datatype JsError = ReferenceError(identifier: string)
  {
    /** V8's `error.message` for an unbound identifier. */
    function Message(): string
    {
      identifier + " is not defined"
    }
  }

  /** `{ message }`, the inner object of the production error body. */
  datatype ErrorMessage = ErrorMessage(message: string)

  /** Response bodies: text sent with `res.send`, and the two objects the
      error handler hands to `res.json`. */
  datatype Body =
    | Text(text: string)
    | ErrorEnvelope(inner: ErrorMessage)          // { error: { message } }, inner is "error"
    | ErrorDetail(message: string, error: JsError) // { message, error }

  datatype Response = Response(status: int, body: Body)

  /** What a route handler does: send a response, or throw. */
  datatype Outcome = Sent(response: Response) | Thrown(error: JsError)

  /** A JSON value as `JSON.stringify` writes it; object members keep
      their insertion order. */
  datatype Json = JString(s: string) | JObject(members: seq<(string, Json)>)

  /** `JSON.stringify` of an `Error` object writes its own enumerable
      properties; `message` and `stack` are not enumerable and `name` lives
      on the prototype, so an error is written as `{}`. */
  function ErrorToJson(error: JsError): Json
  {
    JObject([])
  }

  /** What `res.json(body)` sends for the two error-handler objects. */
  function ToJson(body: Body): (j: Json)
    requires !body.Text?
    ensures j.JObject?
  {
    match body
    case ErrorEnvelope(inner) => JObject([("error", JObject([("message", JString(inner.message))]))])
    case ErrorDetail(message, error) => JObject([("message", JString(message)), ("error", ErrorToJson(error))])
  }

  // ---------------------------------------------------------------------
  // The handler

  /** Object destructuring with a default: `{ key = default } = query`. */
  function ValueOr(v: Option<string>, default: string): (s: string)
    ensures v.None? ==> s == default
    ensures v.Some? ==> s == v.value
  {
    match v
    case None => default
    case Some(x) => x
  }

  /** The genre the handler works with: absent means "". */
  function GenreOf(req: Request): string
  {
    ValueOr(req.genre, "")
  }

  /** `validGenres.toString().includes(genre)`: substring containment in
      the joined list, not membership of the list. */
  function GenreAccepted(genre: string): (ok: bool)
    ensures ok <==> IsSubstring(genre, GenreListText)
  {
    IncludesIsSubstring(GenreListText, genre);
    Includes(GenreListText, genre)
  }

  /** The requests the handler answers with 400: a non-empty (truthy)
      genre that is not a substring of the joined list. */
  ghost predicate Rejected(req: Request)
  {
    GenreOf(req) != "" && !IsSubstring(GenreOf(req), GenreListText)
  }

  /** `handleGetMovies`. A truthy genre that fails the check is answered
      with 400. Every other request reaches `res.json(response)` where
      `response`, declared with `let` inside the `if (genre)` block, is not
      in scope: evaluating it throws a ReferenceError. */
  function HandleGetMovies(req: Request): (o: Outcome)
    ensures o.Sent? <==> Rejected(req)
    ensures o.Sent? ==> o.response == Response(400, Text(GenreRejectionText))
    ensures o.Thrown? ==> o.error == ReferenceError(ResponseIdentifier)
  {
    var genre := GenreOf(req);
    if genre != "" && !GenreAccepted(genre) then
      Sent(Response(400, Text(GenreRejectionText)))
    else
      Thrown(ReferenceError(ResponseIdentifier))
  }

  // ---------------------------------------------------------------------
  // The error handler

  predicate IsProduction(nodeEnv: string)
  {
    nodeEnv == "production"
  }

  /** The terminal `errorHandler` middleware: always 500; the error is
      hidden in production and exposed otherwise. */
  function ErrorHandler(error: JsError, nodeEnv: string): (r: Response)
    ensures r.status == 500
    ensures IsProduction(nodeEnv) ==> r.body == ErrorEnvelope(ErrorMessage(ProductionErrorMessage))
    ensures !IsProduction(nodeEnv) ==> r.body == ErrorDetail(error.Message(), error)
  {
    var body :=
      if IsProduction(nodeEnv) then ErrorEnvelope(ErrorMessage(ProductionErrorMessage))
      else ErrorDetail(error.Message(), error);
    Response(500, body)
  }

  // ---------------------------------------------------------------------
  // The endpoint

  /** `GET /movie` as the client sees it: Express passes an exception
      thrown by the route handler to the error-handling middleware. */
  function Endpoint(req: Request, nodeEnv: string): (r: Response)
    ensures r.status != 200
    ensures r.status == 400 <==> Rejected(req)
    ensures r.status == 500 <==> !Rejected(req)
  {
    match HandleGetMovies(req)
    case Sent(response) => response
    case Thrown(error) => ErrorHandler(error, nodeEnv)
  }
}
