# moviedex-api: the `GET /movie` handler, verified

This project models the request-handling core of the moviedex API, an
Express application. The core is two pieces of `src/app.js`:

- `handleGetMovies`, the `GET /movie` route handler, and
- `errorHandler`, the terminal error-handling middleware.

Both are modelled as pure Dafny functions. A request is an optional `genre`,
`country` and `avg_vote` string. The value of `NODE_ENV` is a parameter. The
result is the HTTP status and the value the code hands to `res.send` or
`res.json`. For the JSON replies, `MovieApp.ToJson` gives the structure of the
JSON text that `res.json` actually sends.

What the code does, and what the model proves:

- **Genre check.** `validGenres.toString()` joins the 19 genre names with `","` and no spaces.
  `.includes(genre)` then asks whether `genre` is a **substring** of that string.
  So the check is case-sensitive and is not list membership:
  - every listed name passes;
  - `"comedy"` is refused;
  - fragments such as `"Dra"`, `"l Em"` and the comma-straddling `"n,Dr"` pass.
  For a genre without a comma, passing means "is a piece of one listed name".
- **400 reply.** A non-empty genre that fails the check gets 400 with one fixed
  text. That text advertises `Puzzle`, `Strategy`, `Casual`, `Arcade` and
  `Card`, and the check refuses all five.
- **Never 200.** `let response` is declared inside the `if (genre)` block.
  At `res.json(response)` the name is out of scope, so every request that is
  not refused throws a `ReferenceError`. Express routes the thrown error to
  `errorHandler`, which always answers 500. The endpoint therefore never returns 200.
- **500 body.** In production the object handed to `res.json` is
  `{ error: { message: "server error" } }` whatever the error was. Otherwise it
  is `{ message, error }`. That object holds the error itself. But
  `JSON.stringify` writes only an error's own enumerable properties, and
  `message` and `stack` are not enumerable. So the client receives
  `{"message":"response is not defined","error":{}}`.
- **Unused parameters.** `country` and `avg_vote` are read and never used.
  The outcome depends on the genre and `NODE_ENV` alone.

The intent written in the source's comments is this:
- defaults for the query values (src/app.js:38);
- a genre that must be one of the valid types (src/app.js:41);
- filtering by country and `avg_vote` (src/app.js:78-79).

No filtering is implemented, and the genre test is substring containment
rather than membership. This model follows the code.

Terms the contracts use:
- `MovieApp.GenreOf` is the genre after the destructuring default: an absent value becomes `""`.
- `MovieApp.Rejected` is the predicate for "refused". It holds when that genre is non-empty and is not a
  substring of the comma-joined list. The contracts of `HandleGetMovies`
  and `Endpoint` are stated in terms of it.
- `MovieApp.JsError.Message` is the error's `message` in V8's wording,
  `<name> is not defined`.

Layout:

- `js_builtins.dfy` (module `JsBuiltins`): the two JavaScript built-ins the
  check uses, `Array.prototype.join` and `String.prototype.includes`. Each
  comes with a reference definition (`IsSubstring`) or an inverse (`Split`)
  and the lemmas that connect them.
- `app.dfy` (module `MovieApp`): the genre list, the request and response
  datatypes, the handler, the error handler and the endpoint.
- `app_properties.dfy` (module `MovieAppProperties`): the lemmas about the endpoint.

## Model

| member | source | states |
|---|---|---|
| JsBuiltins.Includes | src/app.js:68 | `String.prototype.includes` from position 0; its meaning is given by IncludesIsSubstring |
| JsBuiltins.Join | src/app.js:68 | `Array.prototype.toString`, that is `join(",")`; its meaning is given by SplitJoin, JoinPieceAt and JoinLength |
| JsBuiltins.IncludesIsSubstring | src/app.js:68 | `includes` scanning from the left returns true exactly when the needle occurs at some index of the string (both directions) |
| JsBuiltins.EmptyIsIncluded | src/app.js:65-68 | the empty string is included in every string, which is why the handler's truthiness test on `genre` is what keeps `""` out of the check |
| JsBuiltins.JoinLength | src/app.js:68 | a joined list is as long as its pieces plus one separator between each pair |
| JsBuiltins.JoinPieceAt | src/app.js:68 | piece k of a joined list sits in the joined string at the offset of the pieces and separators before it |
| JsBuiltins.PieceIsSubstring | src/app.js:68 | every piece of a joined list is a substring of the joined string |
| JsBuiltins.PieceMatchIsJoinMatch | src/app.js:68 | a substring of any one piece is a substring of the joined string |
| JsBuiltins.StraddlingMatch | src/app.js:68 | for any adjacent pieces k and k+1, the end of piece k, the separator and the start of piece k+1 occur in the joined string, starting inside piece k |
| JsBuiltins.SeparatorFreeMatchIsInAPiece | src/app.js:68 | a needle without the separator that occurs in the joined string occurs inside one piece |
| JsBuiltins.CharAbsentFromJoin | src/app.js:68 | a character that is in no piece and is not the separator is not in the joined string |
| JsBuiltins.MissingCharRulesOut | src/app.js:68 | a needle containing a character the string lacks is not a substring of it |
| JsBuiltins.SplitJoin | src/app.js:68 | round trip: splitting the comma-joined list at the comma gives the list back when no piece holds a comma |
| MovieApp.ValueOr | src/app.js:39 | destructuring with a default: an absent query key yields the default, a present one its value |
| MovieApp.GenreOf | src/app.js:39 | the `genre = ""` destructuring default; its meaning is given by ValueOr and MissingGenreNeverRefused |
| MovieApp.GenreAccepted | src/app.js:68 | the check passes exactly when the genre is a substring of the comma-joined genre list |
| MovieApp.HandleGetMovies | src/app.js:37-82 | the handler sends a response exactly for a non-empty genre that fails the check, and that response is 400 with the fixed text; every other request throws a ReferenceError for `response` |
| MovieApp.ErrorHandler | src/app.js:87-96 | status is always 500; production gets the generic `server error` envelope, other modes get the error's message and the error itself |
| MovieApp.IsProduction | src/app.js:89 | the `NODE_ENV === "production"` test; ErrorHandler and AcceptedRequestBody state both of its branches |
| MovieApp.ErrorToJson | src/app.js:93-95 | how `JSON.stringify` writes the error inside `res.json`: as `{}`; its meaning is given by DevelopmentWireBody |
| MovieApp.ToJson | src/app.js:89-95 | what `res.json` sends for either of the error handler's objects is a JSON object |
| MovieApp.Endpoint | src/app.js:65-96 | the status is never 200; it is 400 exactly when the request is refused and 500 exactly when it is not |
| MovieAppProperties.EveryListedGenreAccepted | src/app.js:42-68 | every one of the 19 names, exactly as capitalised, passes the check |
| MovieAppProperties.CommaFreeGenreAcceptance | src/app.js:42-68 | a genre without a comma passes exactly when it is a substring of some listed name (both directions) |
| MovieAppProperties.RefusedWhenEveryNameLacksAChar | src/app.js:42-68 | a comma-free genre is refused when each listed name lacks one of its characters |
| MovieAppProperties.RefusedWhenCharIsUnlisted | src/app.js:42-68 | a genre holding a character found in no listed name (other than the comma) is refused |
| MovieAppProperties.LowerCaseComedyRefused | src/app.js:46-68 | the check is case-sensitive: `Comedy` is listed, `comedy` is refused |
| MovieAppProperties.FragmentsOccur | src/app.js:42-68 | in a list starting `Animation`, `Drama` with `Final Embrace` at index 12, the pieces `Dra`, `l Em` and `n,Dr` occur in the joined string |
| MovieAppProperties.FragmentsAccepted | src/app.js:68 | `Dra`, `l Em` and the comma-straddling `n,Dr` pass the check |
| MovieAppProperties.StraddlingFragmentAccepted | src/app.js:42-68 | at every comma of the list, the end of one name, the comma and the start of the next name together pass the check |
| MovieAppProperties.FragmentsAreNotGenres | src/app.js:42-62 | none of those three fragments is a listed genre |
| MovieAppProperties.PuzzleRefused | src/app.js:68-74 | `Puzzle`, which the 400 text offers, is refused |
| MovieAppProperties.StrategyRefused | src/app.js:68-74 | `Strategy`, which the 400 text offers, is refused |
| MovieAppProperties.CasualRefused | src/app.js:68-74 | `Casual`, which the 400 text offers, is refused |
| MovieAppProperties.ArcadeRefused | src/app.js:68-74 | `Arcade`, which the 400 text offers, is refused |
| MovieAppProperties.CardRefused | src/app.js:68-74 | `Card`, which the 400 text offers, is refused |
| MovieAppProperties.ActionAccepted | src/app.js:52-68 | `Action`, the one genre the 400 text offers that is listed, passes |
| MovieAppProperties.AdvertisedGenresRefused | src/app.js:68-74 | of the six genres the 400 text names, only `Action` passes the check |
| MovieAppProperties.MissingGenreNeverRefused | src/app.js:39-65 | a missing genre defaults to `""`; a missing or empty genre skips the check and ends in 500, never 400 |
| MovieAppProperties.RefusedExactlyWhenNotASubstring | src/app.js:65-75 | a non-empty genre gets 400 exactly when it is not a substring of the joined list |
| MovieAppProperties.ListedGenreEndsInServerError | src/app.js:42-96 | asking for any listed genre ends in a 500 |
| MovieAppProperties.RefusalDoesNotDependOnInput | src/app.js:70-74 | any two 400 replies are identical: status 400 and the fixed text, whatever the value and mode |
| MovieAppProperties.AcceptedRequestsReachErrorHandler | src/app.js:66-96 | a request that is not refused throws a ReferenceError naming `response`, and its reply is the error handler's reply to that error |
| MovieAppProperties.CountryAndAvgVoteIgnored | src/app.js:39-81 | changing `country` or `avg_vote` never changes the reply |
| MovieAppProperties.ProductionHidesError | src/app.js:89-90 | in production the reply is the same for every error and is the `{ error: { message } }` envelope |
| MovieAppProperties.DevelopmentExposesError | src/app.js:91-93 | outside production the object handed to `res.json` carries the error itself and its message |
| MovieAppProperties.DevelopmentWireBody | src/app.js:91-95 | outside production the client receives `{"message": <error message>, "error": {}}`, because `JSON.stringify` writes an error as `{}`; errors with the same message produce identical replies |
| MovieAppProperties.ProductionWireBody | src/app.js:89-95 | in production the client receives `{"error": {"message": "server error"}}` |
| MovieAppProperties.AcceptedRequestBody | src/app.js:81-95 | a request that is not refused receives `server error` in production and `response is not defined` with the ReferenceError otherwise |

## Left out

- The movie dataset (`./movies-data-small.json`) and its loading: the handler never sends it, because `response` is out of scope at `res.json`.
- Filtering by genre, country and rating: `src/app.js` holds only comments for it, with no code.
- Express routing and middleware: `morgan`, `helmet`, `cors` and `express.json` are framework setup. The model keeps one piece of Express behaviour: an exception thrown by a route handler goes to the error middleware (`MovieApp.Endpoint`).
- Logging: the winston logger and the `console.error` call in the error handler are output side effects.
- Process bootstrap: dotenv and `./config` are not part of this model. `NODE_ENV` is a string parameter, and production means it equals `"production"`.
- Non-string query values: Express can parse repeated or bracketed keys into arrays or objects. The model takes `genre` as a plain string only.
- Headers and the byte-level JSON text: 400 bodies are text values. For error bodies, `MovieApp.ToJson` gives the JSON structure (member order included) but not its spelling as characters.
- Other errors reaching `errorHandler`: the model's error type has one kind, the ReferenceError the handler raises.
- Text encoding: strings are sequences of Unicode characters, while JavaScript compares UTF-16 code units. The joined genre list is ASCII, so the two views agree on every needle.
- MovieApp.ErrorHandler: states the message of the ReferenceError as V8 words it (`<name> is not defined`). Other engines may word it differently.
