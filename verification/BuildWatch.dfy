/** The rebuild detector of `estimate --watch` (`src/main.rs`): a build is accepted once its hash
    has been seen on two polls with nothing but read errors between them. */
module BuildWatch {
  import opened Wrappers

  /** What one poll of the watched file finds. */
  datatype Poll = Found(hash: string) | Absent | Unreadable

  datatype WatchState = WatchState(last: Option<string>, pending: Option<string>)

  function Next(s: WatchState, poll: Poll): WatchState {
    match poll
    case Absent => s.(pending := None)
    case Unreadable => s
    case Found(hash) =>
      if s.last == Some(hash) then s.(pending := None)
      else if s.pending == Some(hash) then WatchState(Some(hash), None)
      else s.(pending := Some(hash))
  }

  predicate Accepts(s: WatchState, poll: Poll) {
    poll.Found? && s.last != Some(poll.hash) && s.pending == Some(poll.hash)
  }

  class EstimateWatch {
    var lastHash: Option<string>
    var pendingHash: Option<string>

    ghost function Contents(): WatchState
      reads this
    {
      WatchState(lastHash, pendingHash)
    }

    /** Before polling, a readable file becomes the baseline. */
    constructor (first: Poll)
      ensures Contents() == Baseline(first)
    {
      lastHash := if first.Found? then Some(first.hash) else None;
      pendingHash := None;
    }

    method SettledNewBuildDetected(observed: string) returns (settled: bool)
      modifies this`pendingHash
      ensures settled == Accepts(old(Contents()), Found(observed))
      ensures pendingHash == if !settled && lastHash != Some(observed) then Some(observed) else None
    {
      if lastHash == Some(observed) {
        pendingHash := None;
        return false;
      }
      if pendingHash == Some(observed) {
        pendingHash := None;
        return true;
      }
      pendingHash := Some(observed);
      return false;
    }

    method PollOnce(poll: Poll) returns (accepted: bool)
      modifies this
      ensures accepted == Accepts(old(Contents()), poll)
      ensures Contents() == Next(old(Contents()), poll)
    {
      match poll {
        case Absent =>
          pendingHash := None;
          return false;
        case Unreadable =>
          return false;
        case Found(hash) =>
          accepted := SettledNewBuildDetected(hash);
          if accepted {
            lastHash := Some(hash);
          }
      }
    }
  }

  // ----- Whole traces -----

  function Baseline(first: Poll): WatchState {
    WatchState(if first.Found? then Some(first.hash) else None, None)
  }

  function Run(first: Poll, polls: seq<Poll>): WatchState
    decreases |polls|
  {
    if polls == [] then Baseline(first) else Next(Run(first, polls[..|polls| - 1]), polls[|polls| - 1])
  }

  predicate AcceptedAt(first: Poll, polls: seq<Poll>, i: nat)
    requires i < |polls|
  {
    Accepts(Run(first, polls[..i]), polls[i])
  }

  /** The hash the last readable poll saw, if the file was there. */
  function LastSeen(polls: seq<Poll>): Option<string>
    decreases |polls|
  {
    if polls == [] then None
    else match polls[|polls| - 1]
      case Found(hash) => Some(hash)
      case Absent => None
      case Unreadable => LastSeen(polls[..|polls| - 1])
  }

  /** The last build accepted, counting the baseline, told from the acceptances alone. */
  function LastAccepted(first: Poll, polls: seq<Poll>): Option<string>
    decreases |polls|
  {
    if polls == [] then if first.Found? then Some(first.hash) else None
    else
      var n := |polls| - 1;
      if AcceptedAt(first, polls, n) then Some(polls[n].hash) else LastAccepted(first, polls[..n])
  }

  lemma {:induction false} StateIsHistory(first: Poll, polls: seq<Poll>)
    ensures var s := Run(first, polls);
            && s.last == LastAccepted(first, polls)
            && s.pending == if LastSeen(polls) == s.last then None else LastSeen(polls)
    decreases |polls|
  {
    if polls == [] {
    } else {
      StateIsHistory(first, polls[..|polls| - 1]);
    }
  }

  /** A poll is accepted exactly when the file is there with a hash other than the last accepted
      one, and the previous poll that was not a read error saw the file with that same hash. */
  lemma AcceptedIffSettled(first: Poll, polls: seq<Poll>, i: nat)
    requires i < |polls|
    ensures AcceptedAt(first, polls, i) <==>
              && polls[i].Found?
              && LastAccepted(first, polls[..i]) != Some(polls[i].hash)
              && LastSeen(polls[..i]) == Some(polls[i].hash)
  {
    StateIsHistory(first, polls[..i]);
  }

  /** The documentation asks for two consecutive polls. An accepted poll's predecessor saw the same
      hash exactly when it was not a read error. */
  lemma ConsecutiveIffReadable(first: Poll, polls: seq<Poll>, i: nat)
    requires i < |polls| && AcceptedAt(first, polls, i)
    ensures i > 0 && (polls[i - 1] == polls[i] <==> !polls[i - 1].Unreadable?)
  {
    AcceptedIffSettled(first, polls, i);
    assert polls[..i] != [];
    assert polls[..i][|polls[..i]| - 1] == polls[i - 1];
  }

  /** And a read error between two polls that saw the same hash does not keep it from settling. */
  lemma ReadErrorIsSkipped(first: Poll, hash: string)
    requires first != Found(hash)
    ensures AcceptedAt(first, [Found(hash), Unreadable, Found(hash)], 2)
  {
    var one, two := [Found(hash)], [Found(hash), Unreadable];
    assert one[..0] == [] && two[..1] == one && [Found(hash), Unreadable, Found(hash)][..2] == two;
    assert Run(first, one) == WatchState(Baseline(first).last, Some(hash));
    assert Run(first, two) == Run(first, one);
  }

  lemma {:induction false} NoAcceptanceBetween(first: Poll, polls: seq<Poll>, i: nat, j: nat)
    requires i < j <= |polls| && AcceptedAt(first, polls, i)
    requires forall k :: i < k < j ==> !AcceptedAt(first, polls, k)
    ensures LastAccepted(first, polls[..j]) == Some(polls[i].hash)
    decreases j
  {
    assert polls[..j][..j - 1] == polls[..j - 1];
    assert AcceptedAt(first, polls[..j], j - 1) == AcceptedAt(first, polls, j - 1);
    if j - 1 > i {
      NoAcceptanceBetween(first, polls, i, j - 1);
    }
  }

  /** Two builds accepted one after the other always differ. */
  lemma NeighboursDiffer(first: Poll, polls: seq<Poll>, i: nat, j: nat)
    requires i < j < |polls| && AcceptedAt(first, polls, i) && AcceptedAt(first, polls, j)
    requires forall k :: i < k < j ==> !AcceptedAt(first, polls, k)
    ensures polls[i].hash != polls[j].hash
  {
    NoAcceptanceBetween(first, polls, i, j);
    AcceptedIffSettled(first, polls, j);
  }
}
