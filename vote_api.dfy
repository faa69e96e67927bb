/**
 * The `POST /api/vote` handler: validate the request, then report a repeat
 * voter, else record the vote. The HTTP and JSON encoding is not modelled;
 * the response names the outcome, its status code and the numbers it carries.
 */
module VoteApi {
  import opened Wrappers
  import opened Text
  import opened Identity
  import opened Votes

  /** The longest fingerprint accepted, in characters. */
  const MaxFingerprintLength := 4096

  /** The two fields of the JSON body; `None` for a missing, `null` or empty value. */
  datatype VoteRequest = VoteRequest(vote: Option<string>, fingerprint: Option<string>)

  /** What the handler reads besides the body: configuration, headers and the clock. */
  datatype Env = Env(salt: string, forwardedFor: Option<string>, remoteAddr: Option<string>, now: string)

  datatype VoteError = InvalidVote | InvalidFingerprint

  /** A request that passed validation: a normalised choice and a stripped fingerprint. */
  datatype ValidVote = ValidVote(voteType: string, fingerprint: string)

  datatype Response =
    | Rejected(error: VoteError)
    | AlreadyVoted(userVote: string, stats: Stats)
    | Accepted(stats: Stats)

  /** The handler's answer together with the ledger it leaves behind. */
  datatype Handled = Handled(response: Response, ledger: Document)

  /**
   * The vote value stripped and lower-cased: a missing value is empty, and
   * the result has no white space at its ends and no ASCII capital.
   */
  function NormalizedVote(raw: Option<string>): (v: string)
    ensures raw.None? ==> v == ""
    ensures |v| == |Strip(OrEmpty(raw))|
    ensures Unpadded(v)
    ensures forall k :: 0 <= k < |v| ==> !('A' <= v[k] <= 'Z')
  {
    Lower(Strip(OrEmpty(raw)))
  }

  predicate IsChoice(v: string) {
    v == "for" || v == "against"
  }

  /**
   * Request validation. The vote is checked first: a value that is not
   * `for` or `against` after normalising is `invalid_vote` whatever the
   * fingerprint; only then an empty or over-long stripped fingerprint is
   * `invalid_fingerprint`.
   */
  function ValidateVote(req: VoteRequest): (r: Result<ValidVote, VoteError>)
    ensures r == Failure(InvalidVote) <==> !IsChoice(NormalizedVote(req.vote))
    ensures r == Failure(InvalidFingerprint) <==>
      IsChoice(NormalizedVote(req.vote))
      && (Strip(OrEmpty(req.fingerprint)) == [] || |Strip(OrEmpty(req.fingerprint))| > MaxFingerprintLength)
    ensures r.Success? ==>
      IsChoice(r.value.voteType) && r.value.voteType == NormalizedVote(req.vote)
      && r.value.fingerprint == Strip(OrEmpty(req.fingerprint))
      && 1 <= |r.value.fingerprint| <= MaxFingerprintLength
  {
    var voteType := NormalizedVote(req.vote);
    var fingerprint := Strip(OrEmpty(req.fingerprint));
    if voteType != "for" && voteType != "against" then Failure(InvalidVote)
    else if fingerprint == [] || |fingerprint| > MaxFingerprintLength then Failure(InvalidFingerprint)
    else Success(ValidVote(voteType, fingerprint))
  }

  /** The HTTP status of each outcome. */
  function StatusCode(r: Response): (code: int)
    ensures code == 400 <==> r.Rejected?
    ensures code == 409 <==> r.AlreadyVoted?
    ensures code == 200 <==> r.Accepted?
  {
    match r
    case Rejected(_) => 400
    case AlreadyVoted(_, _) => 409
    case Accepted(_) => 200
  }

  /** The ledger key of a validated request. */
  function VoterKey(v: ValidVote, env: Env, sha: string -> string): string {
    HashFingerprint(v.fingerprint, env.salt, sha)
  }

  /** The hashed client address stored with a new vote. */
  function AddressKey(env: Env, sha: string -> string): string {
    HashIp(ClientIp(env.forwardedFor, env.remoteAddr), env.salt, sha)
  }

  /**
   * The handler on the ledger value. A rejected request leaves the ledger
   * alone; a known voter gets 409 with the stored choice and the current
   * numbers, the ledger untouched; a new voter's vote is added and the new
   * numbers, one vote higher, are reported.
   */
  function HandleVote(d: Document, req: VoteRequest, env: Env, sha: string -> string): (h: Handled)
    ensures ValidateVote(req).Failure? ==> h == Handled(Rejected(ValidateVote(req).error), d)
    ensures ValidateVote(req).Success? && VoterKey(ValidateVote(req).value, env, sha) in Voters(d) ==>
      h == Handled(AlreadyVoted(Voters(d)[VoterKey(ValidateVote(req).value, env, sha)].vote, StatsOf(d)), d)
    ensures ValidateVote(req).Success? && VoterKey(ValidateVote(req).value, env, sha) !in Voters(d) ==>
      var v := ValidateVote(req).value;
      && h.ledger == Added(d, VoterKey(v, env, sha), v.voteType, AddressKey(env, sha), env.now)
      && h.response == Accepted(StatsOf(h.ledger))
      && StatsOf(h.ledger).total == StatsOf(d).total + 1
    ensures h.ledger == d || h.response.Accepted?
  {
    match ValidateVote(req)
    case Failure(e) => Handled(Rejected(e), d)
    case Success(v) =>
      var fpHash := VoterKey(v, env, sha);
      var lookup := HasUserVoted(d, fpHash);
      if lookup.voted then
        Handled(AlreadyVoted(lookup.record.value.vote, StatsOf(d)), d)
      else
        var d' := Added(d, fpHash, v.voteType, AddressKey(env, sha), env.now);
        Handled(Accepted(StatsOf(d')), d')
  }

  /**
   * Sending an accepted request again, from any address at any time, is a
   * conflict: 409 with the choice just recorded and unchanged numbers.
   */
  lemma RepeatRequestConflicts(d: Document, req: VoteRequest, env: Env, env': Env, sha: string -> string)
    requires env'.salt == env.salt
    requires HandleVote(d, req, env, sha).response.Accepted?
    ensures var d1 := HandleVote(d, req, env, sha).ledger;
      HandleVote(d1, req, env', sha) == Handled(AlreadyVoted(NormalizedVote(req.vote), StatsOf(d1)), d1)
  {
    var v := ValidateVote(req).value;
    assert VoterKey(v, env', sha) == VoterKey(v, env, sha);
  }

  /**
   * Vote values are compared with case ignored and surrounding white space
   * removed: padded by white space, `w` normalises to a lower-case word
   * such as `for` or `against` exactly when each of its characters is the
   * word's letter or that letter in upper case.
   */
  lemma VoteSpellings(a: string, w: string, b: string, word: string)
    requires AllSpace(a) && AllSpace(b) && Unpadded(w)
    requires forall k :: 0 <= k < |word| ==> 'a' <= word[k] <= 'z'
    ensures NormalizedVote(Some(a + w + b)) == word <==>
      |w| == |word| && forall k :: 0 <= k < |w| ==> w[k] == word[k] || w[k] as int == word[k] as int - 32
  {
    StripPadded(a, w, b);
    LowerMatches(w, word);
  }

  /** With a valid vote, a stripped fingerprint of 4096 characters is accepted and one of 4097 refused. */
  lemma FingerprintLengthBoundary(vote: Option<string>, longest: string, tooLong: string)
    requires IsChoice(NormalizedVote(vote))
    requires |longest| == MaxFingerprintLength && |tooLong| == MaxFingerprintLength + 1
    requires Unpadded(longest) && Unpadded(tooLong)
    ensures ValidateVote(VoteRequest(vote, Some(longest))) == Success(ValidVote(NormalizedVote(vote), longest))
    ensures ValidateVote(VoteRequest(vote, Some(tooLong))) == Failure(InvalidFingerprint)
  {
    StripPadded("", longest, "");
    assert "" + longest + "" == longest;
    StripPadded("", tooLong, "");
    assert "" + tooLong + "" == tooLong;
  }

  /**
   * On a fresh ledger the first valid vote `for` is accepted with the numbers
   * 246, 67 and 313; sending it again is answered with 409, choice `for` and
   * the same numbers.
   */
  lemma FreshLedgerScenario(req: VoteRequest, env: Env, env': Env, sha: string -> string)
    requires env'.salt == env.salt
    requires ValidateVote(req).Success? && ValidateVote(req).value.voteType == "for"
    ensures var first := HandleVote(Seed(env.now), req, env, sha);
      && first.response == Accepted(Stats(246, 67, 313))
      && HandleVote(first.ledger, req, env', sha).response == AlreadyVoted("for", Stats(246, 67, 313))
  {
    RepeatRequestConflicts(Seed(env.now), req, env, env', sha);
  }

  /**
   * `add_vote_route` against the loaded ledger object: validation before
   * any use of the ledger, then the repeat check, then the in-place update.
   */
  method AddVoteRoute(ledger: Ledger, req: VoteRequest, env: Env, sha: string -> string) returns (resp: Response)
    modifies ledger
    ensures Handled(resp, ledger.Doc()) == HandleVote(old(ledger.Doc()), req, env, sha)
  {
    var checked := ValidateVote(req);
    if checked.Failure? {
      return Rejected(checked.error);
    }
    var fpHash := HashFingerprint(checked.value.fingerprint, env.salt, sha);
    var ip := ClientIp(env.forwardedFor, env.remoteAddr);
    var ipHash := HashIp(ip, env.salt, sha);
    var lookup := HasUserVoted(ledger.Doc(), fpHash);
    if lookup.voted {
      return AlreadyVoted(lookup.record.value.vote, StatsOf(ledger.Doc()));
    }
    ledger.AddVote(fpHash, checked.value.voteType, ipHash, env.now);
    resp := Accepted(StatsOf(ledger.Doc()));
  }
}
