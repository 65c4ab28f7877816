/** The retry loop of the `messageCreate` handler and its pruning rule.

    Each attempt runs the whole per-message pipeline once. Its outcome is an
    input here: whether it succeeded, the error message if it failed, and the
    turns the chat session pushed onto the history array it was given before
    the attempt ended (the chat session extends that array in place, and it
    does so even for a reply that is then refused as blocked), and whether
    the attempt had already stored that array under the server (line 189)
    when it failed. */
module Retry {
  import opened Text

  /** `retryAttempts` */
  const RetryAttempts: nat := 3

  /** Start of the message of the error raised when the service blocked the
      reply candidate. */
  const BlockedPrefix: string := "[GoogleGenerativeAI Error]: Candidate was blocked due to"

  datatype Role = User | Model

  /** One conversation turn. */
  datatype Turn = Turn(role: Role, text: string)

  /** How one attempt ended, with the turns the chat session appended. A
      failure raised after line 189 (by the save at line 190 or by a send
      at lines 192-199) has `stored` set: the array is then in the map even
      for a server that had no history before. */
  datatype Outcome =
    | Success(exchange: seq<Turn>)
    | Failure(message: string, exchange: seq<Turn>, stored: bool)

  /** `serverHistory`: server identifier to conversation history. */
  type Index = map<string, seq<Turn>>

  predicate IsBlocked(message: string)
  {
    StartsWith(message, BlockedPrefix)
  }

  /** `serverHistory.get(guildId) || []` */
  function History(index: Index, guild: string): seq<Turn>
  {
    if guild in index then index[guild] else []
  }

  /** Lines 206-211: pop the last two turns, but only when there are two. */
  function DropLastPair(index: Index, guild: string): (r: Index)
    ensures r.Keys == index.Keys
    ensures forall g :: g in index && g != guild ==> r[g] == index[g]
    ensures |History(index, guild)| >= 2 ==>
      |History(r, guild)| == |History(index, guild)| - 2 &&
      History(index, guild) == History(r, guild) + History(index, guild)[|History(r, guild)|..]
    ensures |History(index, guild)| < 2 ==> r == index
  {
    var h := History(index, guild);
    if |h| >= 2 then index[guild := h[..|h| - 2]] else index
  }

  /** The effect of one attempt on the history index. The chat session
      extends the array `History(index, guild)`. When the server had an
      entry, that array is the one in the map; otherwise it is a fresh `[]`
      that reaches the map only through line 189, so a failure raised before
      that line loses it. A blocked failure then drops the last pair of
      turns (lines 205-211). Other servers are never touched. */
  function AfterAttempt(index: Index, guild: string, outcome: Outcome): (r: Index)
    ensures forall g :: g != guild ==> (g in r <==> g in index)
    ensures forall g :: g in index && g != guild ==> r[g] == index[g]
    ensures outcome.Success? ==> guild in r && r[guild] == History(index, guild) + outcome.exchange
    ensures outcome.Failure? && !IsBlocked(outcome.message) ==>
      History(r, guild) == (if guild in index || outcome.stored then History(index, guild) + outcome.exchange else [])
    ensures outcome.Failure? && (guild in index || outcome.stored) ==> guild in r
  {
    var extended := History(index, guild) + outcome.exchange;
    match outcome
    case Success(_) => index[guild := extended]
    case Failure(message, _, stored) =>
      var pushed := if guild in index || stored then index[guild := extended] else index;
      if IsBlocked(message) then DropLastPair(pushed, guild) else pushed
  }

  /** What the loop leaves behind: the index, `retryCount` and `success`. */
  datatype Report = Report(index: Index, retryCount: nat, success: bool)

  /** The loop `while (!success && retryCount < retryAttempts)` from the
      given `retryCount`; attempt number `retryCount` ends as
      `outcomes[retryCount]`. The loop stops at the first success, or after
      `RetryAttempts` failures. */
  function RunFrom(index: Index, guild: string, outcomes: seq<Outcome>, retryCount: nat): (r: Report)
    requires retryCount <= RetryAttempts <= |outcomes|
    ensures retryCount <= r.retryCount <= RetryAttempts
    ensures r.success <==> exists i :: retryCount <= i < RetryAttempts && outcomes[i].Success?
    ensures r.success ==> r.retryCount < RetryAttempts && outcomes[r.retryCount].Success?
    ensures forall i :: retryCount <= i < r.retryCount ==> outcomes[i].Failure?
    ensures !r.success ==> r.retryCount == RetryAttempts
    ensures forall g :: g != guild ==> (g in r.index <==> g in index)
    ensures forall g :: g in index && g != guild ==> r.index[g] == index[g]
    decreases RetryAttempts - retryCount
  {
    if retryCount == RetryAttempts then Report(index, retryCount, false)
    else
      var next := AfterAttempt(index, guild, outcomes[retryCount]);
      if outcomes[retryCount].Success? then Report(next, retryCount, true)
      else RunFrom(next, guild, outcomes, retryCount + 1)
  }

  /** The in-memory `serverHistory` map. */
  class ServerHistory {
    var histories: Index

    constructor ()
      ensures histories == map[]
    {
      histories := map[];
    }

    /** Lines 106-219 for one incoming message on server `guild`: attempt
        `retryCount` ends as `outcomes[retryCount]`. */
    method HandleMessage(guild: string, outcomes: seq<Outcome>) returns (retryCount: nat, success: bool)
      requires |outcomes| == RetryAttempts
      modifies this
      ensures Report(histories, retryCount, success) == RunFrom(old(histories), guild, outcomes, 0)
    {
      retryCount := 0;
      success := false;
      while !success && retryCount < RetryAttempts
        invariant retryCount <= RetryAttempts
        invariant !success ==> RunFrom(old(histories), guild, outcomes, 0) == RunFrom(histories, guild, outcomes, retryCount)
        invariant success ==> RunFrom(old(histories), guild, outcomes, 0) == Report(histories, retryCount, true)
        decreases RetryAttempts - retryCount, !success
      {
        var outcome := outcomes[retryCount];
        Attempt(guild, outcome);
        if outcome.Success? {
          success := true;
        } else {
          retryCount := retryCount + 1;
        }
      }
    }

    /** Lines 111-211 for one attempt: the chat session extends the
        server's history array, a success or a failure after line 189 has
        stored it, and a blocked failure pops the last pair of turns. */
    method Attempt(guild: string, outcome: Outcome)
      modifies this
      ensures histories == AfterAttempt(old(histories), guild, outcome)
    {
      var history := if guild in histories then histories[guild] else [];
      // the chat session appends to `history` in place
      history := history + outcome.exchange;
      if guild in histories {
        histories := histories[guild := history];
      }
      if outcome.Success? || outcome.stored {
        // line 189
        histories := histories[guild := history];
      }
      if outcome.Failure? && IsBlocked(outcome.message) {
        PopPair(guild);
      }
    }

    /** Lines 206-211. */
    method PopPair(guild: string)
      modifies this
      ensures histories == DropLastPair(old(histories), guild)
    {
      var history := if guild in histories then histories[guild] else [];
      if |history| >= 2 {
        ghost var whole := history;
        history := history[..|history| - 1];
        history := history[..|history| - 1];
        assert history == whole[..|whole| - 2];
        histories := histories[guild := history];
      }
    }
  }

  // ---- Properties --------------------------------------------------------

  /** The catch block alone: an error that is not a blocked candidate leaves
      the history as it is; a blocked one shortens it by exactly two turns
      when it has at least two, and leaves it as it is otherwise. A server
      without history keeps none, except that a failure after line 189 has
      stored the fresh empty array for it. */
  lemma FailureWithoutExchange(index: Index, guild: string, message: string, stored: bool)
    ensures var r := AfterAttempt(index, guild, Failure(message, [], stored));
      var h := History(index, guild);
      var pruned := IsBlocked(message) && |h| >= 2;
      && History(r, guild) == (if pruned then h[..|h| - 2] else h)
      && (guild in index || !stored ==> r.Keys == index.Keys)
      && (!pruned ==> r == (if guild in index || !stored then index else index[guild := []]))
  {
    var h := History(index, guild);
    if guild in index {
      assert h + [] == h;
      assert index[guild := h] == index;
    }
  }

  /** A blocked reply undoes its own exchange: when the chat session had
      pushed the user turn and the model turn, the pruning leaves the
      history exactly as it was before the attempt (a server that had none
      keeps none, stored as `[]` only if line 189 had run). */
  lemma BlockedPairUndone(index: Index, guild: string, message: string, exchange: seq<Turn>, stored: bool)
    requires IsBlocked(message) && |exchange| == 2
    ensures var r := AfterAttempt(index, guild, Failure(message, exchange, stored));
      && History(r, guild) == History(index, guild)
      && r == (if guild in index || !stored then index else index[guild := []])
  {
    if guild in index {
      var h := index[guild];
      assert (h + exchange)[..|h + exchange| - 2] == h;
      assert index[guild := h] == index;
    } else if stored {
      assert ([] + exchange)[..0] == [];
    }
  }

  /** The code's own path through the loop: blocked replies whose pairs the
      chat session had pushed, then a success. Every prune undoes its pair,
      so the loop ends with the old history extended by the exchange of the
      successful attempt alone, and nothing else in the map changes. */
  lemma {:induction false} BlockedPairsThenSuccess(index: Index, guild: string, outcomes: seq<Outcome>, retryCount: nat, k: nat)
    requires retryCount <= k < RetryAttempts <= |outcomes|
    requires forall i :: retryCount <= i < k ==>
      outcomes[i].Failure? && IsBlocked(outcomes[i].message) && |outcomes[i].exchange| == 2
    requires outcomes[k].Success?
    ensures var r := RunFrom(index, guild, outcomes, retryCount);
      && r.success && r.retryCount == k
      && r.index == index[guild := History(index, guild) + outcomes[k].exchange]
    decreases k - retryCount
  {
    if retryCount == k {
      UnfoldSuccess(index, guild, outcomes, k);
    } else {
      var o := outcomes[retryCount];
      var next := AfterAttempt(index, guild, o);
      UndoneBeforeStore(index, guild, o, outcomes[k].exchange);
      BlockedPairsThenSuccess(next, guild, outcomes, retryCount + 1, k);
      UnfoldFailure(index, guild, outcomes, retryCount);
    }
  }

  /** A successful attempt ends the loop with its exchange stored. */
  lemma UnfoldSuccess(index: Index, guild: string, outcomes: seq<Outcome>, retryCount: nat)
    requires retryCount < RetryAttempts <= |outcomes| && outcomes[retryCount].Success?
    ensures RunFrom(index, guild, outcomes, retryCount) ==
      Report(index[guild := History(index, guild) + outcomes[retryCount].exchange], retryCount, true)
  {
  }

  /** After an undone blocked pair, storing a history gives the same map
      as storing it over the history from before the attempt. */
  lemma UndoneBeforeStore(index: Index, guild: string, o: Outcome, exchange: seq<Turn>)
    requires o.Failure? && IsBlocked(o.message) && |o.exchange| == 2
    ensures var next := AfterAttempt(index, guild, o);
      next[guild := History(next, guild) + exchange] == index[guild := History(index, guild) + exchange]
  {
    BlockedPairUndone(index, guild, o.message, o.exchange, o.stored);
  }

  /** A failed attempt hands the loop on to the next one. */
  lemma UnfoldFailure(index: Index, guild: string, outcomes: seq<Outcome>, retryCount: nat)
    requires retryCount < RetryAttempts <= |outcomes| && outcomes[retryCount].Failure?
    ensures RunFrom(index, guild, outcomes, retryCount) ==
      RunFrom(AfterAttempt(index, guild, outcomes[retryCount]), guild, outcomes, retryCount + 1)
  {
  }

  /** Two blocked failures that had pushed nothing, then a success: two pairs
      of trailing turns are gone before the third attempt, which succeeds
      and extends what is left. */
  lemma TwoBlockedThenSuccess(index: Index, guild: string, m1: string, m2: string, s1: bool, s2: bool, exchange: seq<Turn>)
    requires IsBlocked(m1) && IsBlocked(m2)
    requires |History(index, guild)| >= 4
    ensures var h := History(index, guild);
      var r := RunFrom(index, guild, [Failure(m1, [], s1), Failure(m2, [], s2), Success(exchange)], 0);
      && r.success && r.retryCount == 2
      && History(r.index, guild) == h[..|h| - 4] + exchange
  {
    var outcomes := [Failure(m1, [], s1), Failure(m2, [], s2), Success(exchange)];
    var h := History(index, guild);
    var i1 := AfterAttempt(index, guild, outcomes[0]);
    FailureWithoutExchange(index, guild, m1, s1);
    var i2 := AfterAttempt(i1, guild, outcomes[1]);
    FailureWithoutExchange(i1, guild, m2, s2);
    assert History(i2, guild) == h[..|h| - 4];
    assert RunFrom(index, guild, outcomes, 0) == RunFrom(i1, guild, outcomes, 1);
    assert RunFrom(i1, guild, outcomes, 1) == RunFrom(i2, guild, outcomes, 2);
  }

  /** When every attempt fails without the chat session pushing anything,
      the history that remains is a prefix of the one before: the loop only
      ever removes trailing turns. */
  lemma {:induction false} FailuresOnlyShorten(index: Index, guild: string, outcomes: seq<Outcome>, retryCount: nat)
    requires retryCount <= RetryAttempts <= |outcomes|
    requires forall i :: 0 <= i < |outcomes| ==> outcomes[i].Failure? && outcomes[i].exchange == []
    ensures var r := RunFrom(index, guild, outcomes, retryCount);
      && !r.success && r.retryCount == RetryAttempts
      && History(r.index, guild) <= History(index, guild)
    decreases RetryAttempts - retryCount
  {
    if retryCount < RetryAttempts {
      var o := outcomes[retryCount];
      var next := AfterAttempt(index, guild, o);
      FailureWithoutExchange(index, guild, o.message, o.stored);
      FailuresOnlyShorten(next, guild, outcomes, retryCount + 1);
    }
  }
}
