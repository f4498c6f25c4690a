/** What the genre check and the `GET /movie` endpoint do for every input. */
module MovieAppProperties {
  import opened JsBuiltins
  import opened MovieApp

  // ---------------------------------------------------------------------
  // The genre check

  /** Every listed name, exactly as capitalised, passes the check. */
  lemma EveryListedGenreAccepted(k: nat)
    requires k < |ValidGenres|
    ensures GenreAccepted(ValidGenres[k])
  {
    PieceIsSubstring(ValidGenres, ",", k);
  }

  /** For a genre without a comma the check is "is a piece of some listed
      name", which is weaker than "is a listed name". */
  lemma CommaFreeGenreAcceptance(genre: string)
    requires ',' !in genre
    ensures GenreAccepted(genre) <==>
      exists k :: 0 <= k < |ValidGenres| && IsSubstring(genre, ValidGenres[k])
  {
    if GenreAccepted(genre) {
      SeparatorFreeMatchIsInAPiece(ValidGenres, ',', genre);
    }
    if exists k :: 0 <= k < |ValidGenres| && IsSubstring(genre, ValidGenres[k]) {
      var k :| 0 <= k < |ValidGenres| && IsSubstring(genre, ValidGenres[k]);
      PieceMatchIsJoinMatch(ValidGenres, ",", k, genre);
    }
  }

  /** A comma-free genre is refused when each listed name lacks one of its
      characters; `missing[k]` is such a character for name `k`. */
  lemma RefusedWhenEveryNameLacksAChar(genre: string, missing: seq<char>)
    requires ',' !in genre
    requires |missing| == |ValidGenres|
    requires forall k :: 0 <= k < |ValidGenres| ==> missing[k] in genre && missing[k] !in ValidGenres[k]
    ensures !GenreAccepted(genre)
  {
    forall k | 0 <= k < |ValidGenres|
      ensures !IsSubstring(genre, ValidGenres[k])
    {
      MissingCharRulesOut(genre, ValidGenres[k], missing[k]);
    }
    CommaFreeGenreAcceptance(genre);
  }

  /** A genre holding a character found nowhere in the list is refused. */
  lemma RefusedWhenCharIsUnlisted(genre: string, ch: char)
    requires ch in genre
    requires ch != ','
    requires forall k :: 0 <= k < |ValidGenres| ==> ch !in ValidGenres[k]
    ensures !GenreAccepted(genre)
  {
    CharAbsentFromJoin(ValidGenres, ',', ch);
    MissingCharRulesOut(genre, GenreListText, ch);
  }

  /** The check is case-sensitive: the listed "Comedy" passes, "comedy"
      does not. */
  lemma LowerCaseComedyRefused()
    ensures "Comedy" in ValidGenres
    ensures !GenreAccepted("comedy")
  {
    RefusedWhenEveryNameLacksAChar("comedy",
      ['c', 'c', 'e', 'c', 'c', 'c', 'c', 'd', 'c', 'm',
       'c', 'c', 'o', 'c', 'c', 'o', 'c', 'c', 'c']);
  }

  /** The three fragments below occur in any list that starts with
      "Animation", "Drama" and has "Final Embrace" at index 12. */
  lemma FragmentsOccur(names: seq<string>)
    requires |names| > 12
    requires names[0] == "Animation" && names[1] == "Drama" && names[12] == "Final Embrace"
    ensures IsSubstring("Dra", Join(names, ","))
    ensures IsSubstring("l Em", Join(names, ","))
    ensures IsSubstring("n,Dr", Join(names, ","))
  {
    assert OccursAt("Dra", names[1], 0);
    PieceMatchIsJoinMatch(names, ",", 1, "Dra");
    assert OccursAt("l Em", names[12], 4);
    PieceMatchIsJoinMatch(names, ",", 12, "l Em");
    StraddlingMatch(names, ",", 0, 8, 2);
    assert names[0][8..] + "," + names[1][..2] == "n,Dr";
  }

  /** The check is not set membership: fragments of names, and fragments
      that straddle a comma, pass although they are no genre. */
  lemma FragmentsAccepted()
    ensures GenreAccepted("Dra") && GenreAccepted("l Em") && GenreAccepted("n,Dr")
  {
    FragmentsOccur(ValidGenres);
  }

  /** Every comma of the list is straddled by accepted fragments: the end
      of one name, the comma and the start of the next pass the check. */
  lemma StraddlingFragmentAccepted(k: nat, i: nat, j: nat)
    requires k + 1 < |ValidGenres|
    requires i <= |ValidGenres[k]| && j <= |ValidGenres[k + 1]|
    ensures GenreAccepted(ValidGenres[k][i..] + "," + ValidGenres[k + 1][..j])
  {
    StraddlingMatch(ValidGenres, ",", k, i, j);
  }

  /** None of those fragments is a listed genre. */
  lemma FragmentsAreNotGenres()
    ensures "Dra" !in ValidGenres && "l Em" !in ValidGenres && "n,Dr" !in ValidGenres
  {
  }

  // The genres offered by the 400 text, one at a time: each refusal names,
  // for every listed name, a character of the probe that the name lacks.

  lemma PuzzleRefused()
    ensures !GenreAccepted("Puzzle")
  {
    RefusedWhenCharIsUnlisted("Puzzle", 'P');
  }

  lemma StrategyRefused()
    ensures !GenreAccepted("Strategy")
  {
    RefusedWhenEveryNameLacksAChar("Strategy",
      ['S', 'S', 'S', 'S', 'S', 'S', 'S', 'S', 'S', 'S',
       'S', 't', 'S', 'S', 'S', 'S', 'S', 'S', 'S']);
  }

  lemma CasualRefused()
    ensures !GenreAccepted("Casual")
  {
    RefusedWhenEveryNameLacksAChar("Casual",
      ['C', 'C', 'C', 'a', 'a', 'C', 'C', 'C', 'C', 'C',
       'C', 'C', 'C', 'C', 'C', 'C', 'C', 'C', 'C']);
  }

  lemma ArcadeRefused()
    ensures !GenreAccepted("Arcade")
  {
    RefusedWhenEveryNameLacksAChar("Arcade",
      ['r', 'A', 'A', 'A', 'A', 'A', 'c', 'A', 'A', 'r',
       'A', 'A', 'A', 'A', 'A', 'A', 'A', 'A', 'A']);
  }

  lemma CardRefused()
    ensures !GenreAccepted("Card")
  {
    RefusedWhenEveryNameLacksAChar("Card",
      ['C', 'C', 'C', 'a', 'a', 'C', 'C', 'C', 'C', 'C',
       'C', 'C', 'C', 'C', 'C', 'C', 'C', 'C', 'C']);
  }

  lemma ActionAccepted()
    ensures GenreAccepted("Action")
  {
    EveryListedGenreAccepted(9);
  }

  /** The 400 text names six genres; the check refuses all but "Action". */
  lemma AdvertisedGenresRefused()
    ensures GenreAccepted("Action")
    ensures !GenreAccepted("Puzzle") && !GenreAccepted("Strategy") && !GenreAccepted("Casual")
    ensures !GenreAccepted("Arcade") && !GenreAccepted("Card")
  {
    ActionAccepted();
    PuzzleRefused();
    StrategyRefused();
    CasualRefused();
    ArcadeRefused();
    CardRefused();
  }

  // ---------------------------------------------------------------------
  // The endpoint

  /** No genre, or an empty one, is never answered with 400. */
  lemma MissingGenreNeverRefused(country: Option<string>, avgVote: Option<string>, nodeEnv: string)
    ensures GenreOf(Request(None, country, avgVote)) == ""
    ensures Endpoint(Request(None, country, avgVote), nodeEnv).status == 500
    ensures Endpoint(Request(Some(""), country, avgVote), nodeEnv).status == 500
  {
  }

  /** A non-empty genre is answered with 400 exactly when it is not a
      substring of the joined list. */
  lemma RefusedExactlyWhenNotASubstring(req: Request, nodeEnv: string)
    requires req.genre.Some? && req.genre.value != ""
    ensures Endpoint(req, nodeEnv).status == 400 <==> !IsSubstring(req.genre.value, GenreListText)
  {
  }

  /** Every listed genre, asked for as written, ends in a 500. */
  lemma ListedGenreEndsInServerError(k: nat, country: Option<string>, avgVote: Option<string>, nodeEnv: string)
    requires k < |ValidGenres|
    ensures Endpoint(Request(Some(ValidGenres[k]), country, avgVote), nodeEnv).status == 500
  {
    EveryListedGenreAccepted(k);
  }

  /** The 400 reply is the same whatever the refused value was. */
  lemma RefusalDoesNotDependOnInput(r1: Request, r2: Request, env1: string, env2: string)
    requires Endpoint(r1, env1).status == 400
    requires Endpoint(r2, env2).status == 400
    ensures Endpoint(r1, env1) == Endpoint(r2, env2) == Response(400, Text(GenreRejectionText))
  {
  }

  /** Every request that is not refused throws a ReferenceError naming
      `response` and is answered by the error handler. */
  lemma AcceptedRequestsReachErrorHandler(req: Request, nodeEnv: string)
    requires !Rejected(req)
    ensures HandleGetMovies(req) == Thrown(ReferenceError(ResponseIdentifier))
    ensures Endpoint(req, nodeEnv) == ErrorHandler(ReferenceError(ResponseIdentifier), nodeEnv)
  {
  }

  /** The outcome depends on the genre and `NODE_ENV` alone. */
  lemma CountryAndAvgVoteIgnored(genre: Option<string>, c1: Option<string>, a1: Option<string>,
                                 c2: Option<string>, a2: Option<string>, nodeEnv: string)
    ensures Endpoint(Request(genre, c1, a1), nodeEnv) == Endpoint(Request(genre, c2, a2), nodeEnv)
  {
  }

  // ---------------------------------------------------------------------
  // The error handler

  /** In production the body does not depend on the error. */
  lemma ProductionHidesError(e1: JsError, e2: JsError)
    ensures ErrorHandler(e1, "production") == ErrorHandler(e2, "production")
    ensures ErrorHandler(e1, "production").body.ErrorEnvelope?
  {
  }

  /** Outside production the object handed to `res.json` carries the error
      itself and its message. */
  lemma DevelopmentExposesError(error: JsError, nodeEnv: string)
    requires nodeEnv != "production"
    ensures ErrorHandler(error, nodeEnv).body.ErrorDetail?
    ensures ErrorHandler(error, nodeEnv).body.error == error
    ensures ErrorHandler(error, nodeEnv).body.message == error.Message()
  {
  }

  /** What the client receives outside production: the message, and `{}`
      for the error, since serialising drops the error's fields. Two errors
      with the same message are indistinguishable on the wire. */
  lemma DevelopmentWireBody(e1: JsError, e2: JsError, nodeEnv: string)
    requires nodeEnv != "production"
    ensures ToJson(ErrorHandler(e1, nodeEnv).body) ==
      JObject([("message", JString(e1.Message())), ("error", JObject([]))])
    ensures e1.Message() == e2.Message() ==>
      ToJson(ErrorHandler(e1, nodeEnv).body) == ToJson(ErrorHandler(e2, nodeEnv).body)
  {
  }

  /** What the client receives in production. */
  lemma ProductionWireBody(error: JsError)
    ensures ToJson(ErrorHandler(error, "production").body) ==
      JObject([("error", JObject([("message", JString("server error"))]))])
  {
  }

  /** What an accepted request receives, in both modes. */
  lemma AcceptedRequestBody(req: Request, nodeEnv: string)
    requires !Rejected(req)
    ensures IsProduction(nodeEnv) ==>
      Endpoint(req, nodeEnv).body == ErrorEnvelope(ErrorMessage("server error"))
    ensures !IsProduction(nodeEnv) ==>
      Endpoint(req, nodeEnv).body == ErrorDetail("response is not defined", ReferenceError("response"))
  {
  }
}
