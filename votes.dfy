/**
 * The vote ledger: one JSON document with the tallies, the voters keyed by
 * the hash of their fingerprint, and metadata. Any of the three top-level
 * entries, and any tally, may be missing from a stored document; readers
 * treat a missing tally as 0 and `add_vote` first inserts defaults.
 */
module Votes {
  import opened Wrappers

  /** One voter's entry: the choice as recorded, when, and the hashed client address. */
  datatype Record = Record(vote: string, timestamp: string, ipHash: string)

  datatype Metadata = Metadata(totalVotes: int, lastUpdated: string)

  /** The ledger document; `None` is an entry absent from the dictionary. */
  datatype Document = Document(
    votes: Option<map<string, int>>,
    voters: Option<map<string, Record>>,
    metadata: Option<Metadata>)

  /** The three aggregate numbers the API reports. */
  datatype Stats = Stats(votesFor: int, votesAgainst: int, total: int)

  /** What `has_user_voted` returns: whether the hash is known, and its record (`None` for `{}`). */
  datatype Lookup = Lookup(voted: bool, record: Option<Record>)

  /** A tally of a vote dictionary, 0 when the key is missing. */
  function Get(tally: map<string, int>, key: string): int {
    if key in tally then tally[key] else 0
  }

  /** A tally of the document, 0 when the votes entry or the key is missing. */
  function Tally(d: Document, key: string): int {
    Get(d.votes.GetOr(map[]), key)
  }

  /** The voters of the document, none when the entry is missing. */
  function Voters(d: Document): map<string, Record> {
    d.voters.GetOr(map[])
  }

  /** All three top-level entries are present. */
  predicate Complete(d: Document) {
    d.votes.Some? && d.voters.Some? && d.metadata.Some?
  }

  /** The stored total agrees with the two tallies. */
  predicate Consistent(d: Document) {
    Complete(d) && d.metadata.value.totalVotes == Tally(d, "for") + Tally(d, "against")
  }

  /** Votes counted beyond the recorded voters; a vote changes neither side of it. */
  function Surplus(d: Document): int {
    Tally(d, "for") + Tally(d, "against") - |Voters(d)|
  }

  /** The document written when no ledger file exists, or read when it cannot be loaded. */
  function Seed(now: string): (d: Document)
    ensures Consistent(d)
    ensures Tally(d, "for") == 245 && Tally(d, "against") == 67
    ensures d.metadata == Some(Metadata(312, now))
    ensures Voters(d) == map[]
    ensures Surplus(d) == 312
  {
    Document(Some(map["for" := 245, "against" := 67]), Some(map[]), Some(Metadata(312, now)))
  }

  /**
   * The three `setdefault` calls at the start of `add_vote`: each missing
   * entry gets its default, and nothing that was present changes.
   */
  function WithDefaults(d: Document, now: string): (r: Document)
    ensures Complete(r)
    ensures forall k :: Tally(r, k) == Tally(d, k)
    ensures Voters(r) == Voters(d)
    ensures r.votes == if d.votes.None? then Some(map["for" := 0, "against" := 0]) else d.votes
    ensures r.voters == if d.voters.None? then Some(map[]) else d.voters
    ensures r.metadata == if d.metadata.None? then Some(Metadata(0, now)) else d.metadata
    ensures Complete(d) ==> r == d
  {
    Document(
      Some(d.votes.GetOr(map["for" := 0, "against" := 0])),
      Some(d.voters.GetOr(map[])),
      Some(d.metadata.GetOr(Metadata(0, now))))
  }

  /**
   * `add_vote` on the document value. A known hash leaves the tallies and
   * the voters as they were (first write wins); a new hash adds one to the
   * chosen tally only, records exactly one new voter and recomputes the total.
   * Any choice other than `for` counts against, as in the source.
   */
  function Added(d: Document, fpHash: string, voteType: string, ipHash: string, now: string): (r: Document)
    ensures Complete(r)
    ensures fpHash in Voters(r)
    ensures fpHash in Voters(d) ==> r == WithDefaults(d, now)
    ensures fpHash in Voters(d) ==> Voters(r) == Voters(d) && forall k :: Tally(r, k) == Tally(d, k)
    ensures fpHash !in Voters(d) ==>
      Voters(r) == Voters(d)[fpHash := Record(voteType, now, ipHash)] && |Voters(r)| == |Voters(d)| + 1
    ensures fpHash !in Voters(d) ==>
      Tally(r, "for") == Tally(d, "for") + (if voteType == "for" then 1 else 0)
      && Tally(r, "against") == Tally(d, "against") + (if voteType == "for" then 0 else 1)
    ensures forall k :: k != "for" && k != "against" ==> Tally(r, k) == Tally(d, k)
    ensures fpHash !in Voters(d) ==> r.metadata == Some(Metadata(Tally(r, "for") + Tally(r, "against"), now))
    ensures fpHash !in Voters(d) || Consistent(d) ==> Consistent(r)
    ensures Surplus(r) == Surplus(d)
  {
    var filled := WithDefaults(d, now);
    if fpHash in filled.voters.value then filled else Recorded(filled, fpHash, voteType, ipHash, now)
  }

  /** The second half of `add_vote`, on a document with all its entries: count the vote and record the voter. */
  function Recorded(d: Document, fpHash: string, voteType: string, ipHash: string, now: string): Document
    requires Complete(d)
  {
    var tally := d.votes.value;
    var tally' :=
      if voteType == "for" then tally["for" := Get(tally, "for") + 1]
      else tally["against" := Get(tally, "against") + 1];
    var voters' := d.voters.value[fpHash := Record(voteType, now, ipHash)];
    Document(Some(tally'), Some(voters'), Some(Metadata(Get(tally', "for") + Get(tally', "against"), now)))
  }

  /**
   * `has_user_voted`: the hash is looked up among the voters; the record is
   * returned when present and the empty record otherwise.
   */
  function HasUserVoted(d: Document, fpHash: string): (q: Lookup)
    ensures q.voted <==> fpHash in Voters(d)
    ensures q.voted <==> q.record.Some?
    ensures q.voted ==> q.record.value == Voters(d)[fpHash]
  {
    match d.voters
    case Some(m) => if fpHash in m then Lookup(true, Some(m[fpHash])) else Lookup(false, None)
    case None => Lookup(false, None)
  }

  /**
   * `stats_from_data`: the two tallies, missing ones as 0, and their sum; on
   * a consistent document the sum is the stored total.
   */
  function StatsOf(d: Document): (s: Stats)
    ensures s.votesFor == Tally(d, "for") && s.votesAgainst == Tally(d, "against")
    ensures s.total == s.votesFor + s.votesAgainst
    ensures Consistent(d) ==> s.total == d.metadata.value.totalVotes
  {
    var votes := d.votes.GetOr(map[]);
    var forCount := Get(votes, "for");
    var againstCount := Get(votes, "against");
    Stats(forCount, againstCount, forCount + againstCount)
  }

  /**
   * A second vote under the same hash returns the ledger of the first,
   * whatever its choice, address and time: votes are never changed.
   */
  lemma AddedIdempotent(d: Document, fpHash: string, voteType: string, ipHash: string, now: string,
                        voteType': string, ipHash': string, now': string)
    ensures Added(Added(d, fpHash, voteType, ipHash, now), fpHash, voteType', ipHash', now')
         == Added(d, fpHash, voteType, ipHash, now)
  {
  }

  /** On a complete document a repeat vote changes nothing at all. */
  lemma RepeatVoteNoOp(d: Document, fpHash: string, voteType: string, ipHash: string, now: string)
    requires Complete(d) && fpHash in Voters(d)
    ensures Added(d, fpHash, voteType, ipHash, now) == d
  {
  }

  /**
   * A repeat vote on a document without metadata stores a total of 0,
   * whatever the tallies: the default metadata is not recomputed.
   */
  lemma RepeatVoteStoresZeroTotal(d: Document, fpHash: string, voteType: string, ipHash: string, now: string)
    requires d.metadata.None? && fpHash in Voters(d)
    ensures Added(d, fpHash, voteType, ipHash, now).metadata == Some(Metadata(0, now))
    ensures StatsOf(Added(d, fpHash, voteType, ipHash, now)) == StatsOf(d)
  {
  }

  /** After a vote the voter is known, and a new voter's record carries the choice and the time. */
  lemma VotedAfterAdd(d: Document, fpHash: string, voteType: string, ipHash: string, now: string)
    ensures HasUserVoted(Added(d, fpHash, voteType, ipHash, now), fpHash).voted
    ensures fpHash !in Voters(d) ==>
      HasUserVoted(Added(d, fpHash, voteType, ipHash, now), fpHash).record
        == Some(Record(voteType, now, ipHash))
  {
  }

  /** A repeat vote leaves the reported numbers alone; a new vote raises the total by one. */
  lemma AddedStats(d: Document, fpHash: string, voteType: string, ipHash: string, now: string)
    ensures fpHash in Voters(d) ==> StatsOf(Added(d, fpHash, voteType, ipHash, now)) == StatsOf(d)
    ensures fpHash !in Voters(d) ==> StatsOf(Added(d, fpHash, voteType, ipHash, now)).total == StatsOf(d).total + 1
  {
  }

  /** One vote request as the ledger sees it: hashed fingerprint, choice, hashed address, time. */
  datatype Ballot = Ballot(fpHash: string, voteType: string, ipHash: string, now: string)

  /** The ledger after a series of votes, applied one after the other. */
  function AddAll(d: Document, ballots: seq<Ballot>): Document
    decreases |ballots|
  {
    if ballots == [] then d
    else
      var b := ballots[0];
      AddAll(Added(d, b.fpHash, b.voteType, b.ipHash, b.now), ballots[1..])
  }

  /** Every series of votes keeps the ledger consistent and leaves the surplus as it was. */
  lemma {:induction false} AddAllPreserves(d: Document, ballots: seq<Ballot>)
    requires Consistent(d)
    ensures Consistent(AddAll(d, ballots))
    ensures Surplus(AddAll(d, ballots)) == Surplus(d)
    decreases |ballots|
  {
    if ballots != [] {
      var b := ballots[0];
      AddAllPreserves(Added(d, b.fpHash, b.voteType, b.ipHash, b.now), ballots[1..]);
    }
  }

  /** Once recorded, a voter's record survives every later vote unchanged. */
  lemma {:induction false} FirstWriteWins(d: Document, ballots: seq<Ballot>, fpHash: string)
    requires fpHash in Voters(d)
    ensures fpHash in Voters(AddAll(d, ballots))
    ensures Voters(AddAll(d, ballots))[fpHash] == Voters(d)[fpHash]
    decreases |ballots|
  {
    if ballots != [] {
      var b := ballots[0];
      var d' := Added(d, b.fpHash, b.voteType, b.ipHash, b.now);
      assert fpHash in Voters(d') && Voters(d')[fpHash] == Voters(d)[fpHash];
      FirstWriteWins(d', ballots[1..], fpHash);
    }
  }

  /**
   * Every ledger reached from the seed by votes has a stored total equal to
   * its tallies' sum, and counts 312 votes more than it has voters.
   */
  lemma SeededLedger(now: string, ballots: seq<Ballot>)
    ensures Consistent(AddAll(Seed(now), ballots))
    ensures StatsOf(AddAll(Seed(now), ballots)).total == |Voters(AddAll(Seed(now), ballots))| + 312
  {
    AddAllPreserves(Seed(now), ballots);
  }

  /**
   * The ledger dictionary that `add_vote` updates in place. Its fields are
   * the document's three top-level entries.
   */
  class Ledger {
    var votes: Option<map<string, int>>
    var voters: Option<map<string, Record>>
    var metadata: Option<Metadata>

    /** The whole document as it would be saved. */
    function Doc(): Document
      reads this
    {
      Document(votes, voters, metadata)
    }

    /** A ledger holding a loaded document. */
    constructor Loaded(d: Document)
      ensures Doc() == d
    {
      votes, voters, metadata := d.votes, d.voters, d.metadata;
    }

    /** The ledger created when there is no ledger file or it cannot be read. */
    constructor Seeded(now: string)
      ensures Doc() == Seed(now)
      ensures StatsOf(Doc()) == Stats(245, 67, 312)
    {
      votes := Some(map["for" := 245, "against" := 67]);
      voters := Some(map[]);
      metadata := Some(Metadata(312, now));
    }

    /**
     * `add_vote`: fills in missing entries, then, for a hash not yet among
     * the voters, increments one tally, records the voter and recomputes the
     * metadata. `now` stands for every clock reading the source takes.
     */
    method AddVote(fpHash: string, voteType: string, ipHash: string, now: string)
      modifies this
      ensures Doc() == Added(old(Doc()), fpHash, voteType, ipHash, now)
    {
      ghost var before := Doc();
      if votes.None? {
        votes := Some(map["for" := 0, "against" := 0]);
      }
      if voters.None? {
        voters := Some(map[]);
      }
      if metadata.None? {
        metadata := Some(Metadata(0, now));
      }
      ghost var filled := Doc();
      assert filled == WithDefaults(before, now);
      if fpHash !in voters.value {
        var tally := votes.value;
        if voteType == "for" {
          tally := tally["for" := Get(tally, "for") + 1];
        } else {
          tally := tally["against" := Get(tally, "against") + 1];
        }
        votes := Some(tally);
        voters := Some(voters.value[fpHash := Record(voteType, now, ipHash)]);
        metadata := Some(Metadata(Get(tally, "for") + Get(tally, "against"), now));
        assert Doc() == Recorded(filled, fpHash, voteType, ipHash, now);
      }
    }
  }
}
