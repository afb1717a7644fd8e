/** What a proposal's votes are, and what decides it, read off the steps of a run of the
    governance engine (src/governance/engine.rs). */
module Ballots {
  import opened Basics
  import opened Governance

  /** The supernode list in force: the last one set, or the first. */
  function ListInForce(start: Gov, steps: seq<Step>): set<string> {
    if steps == [] then start.supernodes
    else
      match steps[|steps| - 1]
      case ChangeSupernodes(list, _) => list
      case _ => ListInForce(start, steps[..|steps| - 1])
  }

  lemma StepList(s: System, step: Step)
    ensures Apply(s, step).gov.supernodes == if step.ChangeSupernodes? then step.list else s.gov.supernodes
  {
  }

  lemma {:induction false} SupernodesAreInForce(start: Gov, steps: seq<Step>)
    ensures Run(start, steps).gov.supernodes == ListInForce(start, steps)
  {
    if steps != [] {
      SupernodesAreInForce(start, steps[..|steps| - 1]);
      StepList(Run(start, steps[..|steps| - 1]), steps[|steps| - 1]);
    }
  }

  predicate IsVote(step: Step, id: string, voter: string) {
    (step.Record? || step.HandleVote?) && step.id == id && step.voter == voter
  }

  predicate IsOpen(g: Gov, id: string) { id in g.proposals && !g.proposals[id].executed }

  /** A vote is recorded, or refused with its reason: no such proposal, already executed, or not
      a supernode, in this order. */
  lemma VoteIsAnswered(g: Gov, id: string, voter: string, approve: bool, now: nat)
    ensures var e := RecordVote(g, id, voter, approve, now).1;
      && (e == None <==> IsOpen(g, id) && voter in g.supernodes)
      && (e == Some(ProposalNotFound) <==> id !in g.proposals)
      && (e == Some(AlreadyExecuted) <==> id in g.proposals && !IsOpen(g, id))
      && (e == Some(NotASupernode) <==> IsOpen(g, id) && voter !in g.supernodes)
  {
  }

  /** Step k is a vote of this voter on this proposal, cast while the proposal is open and the
      voter on the list in force. */
  ghost predicate Counts(start: Gov, steps: seq<Step>, k: nat, id: string, voter: string) {
    && k < |steps| && IsVote(steps[k], id, voter)
    && IsOpen(Run(start, steps[..k]).gov, id) && voter in ListInForce(start, steps[..k])
  }

  function VoteOf(g: Gov, id: string, voter: string): Option<bool> {
    if id in g.proposals && voter in g.proposals[id].votes then Some(g.proposals[id].votes[voter]) else None
  }

  lemma StepVote(s: System, step: Step, id: string, voter: string)
    requires step.Propose? ==> step.id !in s.gov.proposals
    ensures VoteOf(Apply(s, step).gov, id, voter)
         == if IsVote(step, id, voter) && IsOpen(s.gov, id) && voter in s.gov.supernodes then Some(step.approve)
            else VoteOf(s.gov, id, voter)
  {
    match step
    case HandleVote(_, _, approve, now, later) =>
      VoteRecorded(s.gov, step.id, step.voter, approve, now, id, voter);
      var (gov, error) := RecordVote(s.gov, step.id, step.voter, approve, now);
      VoteMarked(gov, step.id, later, id, voter);
    case Record(_, _, approve, now) => VoteRecorded(s.gov, step.id, step.voter, approve, now, id, voter);
    case Mark(_, now) => VoteMarked(s.gov, step.id, now, id, voter);
    case Propose(_, _, _, _) =>
    case Check(_, _) =>
    case ChangeSupernodes(_, _) =>
  }

  lemma VoteRecorded(g: Gov, i: string, v: string, approve: bool, now: nat, id: string, voter: string)
    ensures VoteOf(RecordVote(g, i, v, approve, now).0, id, voter)
         == if i == id && v == voter && IsOpen(g, id) && voter in g.supernodes then Some(approve)
            else VoteOf(g, id, voter)
  {
  }

  lemma VoteMarked(g: Gov, i: string, now: nat, id: string, voter: string)
    ensures VoteOf(MarkExecuted(g, i, now), id, voter) == VoteOf(g, id, voter)
  {
  }

  /** The last vote that counts. */
  ghost function LastVote(start: Gov, steps: seq<Step>, id: string, voter: string): Option<bool> {
    if steps == [] then None
    else if Counts(start, steps, |steps| - 1, id, voter) then Some(steps[|steps| - 1].approve)
    else LastVote(start, steps[..|steps| - 1], id, voter)
  }

  lemma {:induction false} VoteIsLastVote(start: Gov, steps: seq<Step>, id: string, voter: string)
    requires start.proposals == map[] && FreshIds(start, steps)
    ensures VoteOf(Run(start, steps).gov, id, voter) == LastVote(start, steps, id, voter)
  {
    if steps != [] {
      var front := steps[..|steps| - 1];
      VoteIsLastVote(start, front, id, voter);
      SupernodesAreInForce(start, front);
      StepVote(Run(start, front), steps[|steps| - 1], id, voter);
    }
  }

  ghost predicate LastlyCounts(start: Gov, steps: seq<Step>, k: nat, id: string, voter: string) {
    Counts(start, steps, k, id, voter) && forall m: nat :: k < m ==> !Counts(start, steps, m, id, voter)
  }

  lemma CountsPrefix(start: Gov, steps: seq<Step>, k: nat, id: string, voter: string)
    requires k < |steps| - 1
    ensures Counts(start, steps[..|steps| - 1], k, id, voter) <==> Counts(start, steps, k, id, voter)
  {
    assert steps[..|steps| - 1][..k] == steps[..k];
  }

  lemma {:induction false} LastVoteFound(start: Gov, steps: seq<Step>, id: string, voter: string, k: nat)
    requires LastlyCounts(start, steps, k, id, voter)
    ensures LastVote(start, steps, id, voter) == Some(steps[k].approve)
  {
    var n := |steps| - 1;
    if k < n {
      CountsPrefix(start, steps, k, id, voter);
      forall m: nat | k < m ensures !Counts(start, steps[..n], m, id, voter) {
        if m < n { CountsPrefix(start, steps, m, id, voter); }
      }
      LastVoteFound(start, steps[..n], id, voter, k);
    }
  }

  lemma {:induction false} NoLastVote(start: Gov, steps: seq<Step>, id: string, voter: string)
    requires forall m: nat :: !Counts(start, steps, m, id, voter)
    ensures LastVote(start, steps, id, voter) == None
  {
    if steps != [] {
      var n := |steps| - 1;
      forall m: nat ensures !Counts(start, steps[..n], m, id, voter) {
        if m < n { CountsPrefix(start, steps, m, id, voter); }
      }
      NoLastVote(start, steps[..n], id, voter);
    }
  }

  /** In every run the vote stored for a voter is what the voter said in the last vote that
      counts, and there is none exactly if no vote counts. */
  lemma VotesAreTheLastCast(start: Gov, steps: seq<Step>, id: string, voter: string)
    requires start.proposals == map[] && FreshIds(start, steps)
    ensures VoteOf(Run(start, steps).gov, id, voter) == None <==> forall k: nat :: !Counts(start, steps, k, id, voter)
    ensures forall k: nat :: LastlyCounts(start, steps, k, id, voter) ==>
      VoteOf(Run(start, steps).gov, id, voter) == Some(steps[k].approve)
  {
    VoteIsLastVote(start, steps, id, voter);
    forall k: nat | LastlyCounts(start, steps, k, id, voter)
      ensures VoteOf(Run(start, steps).gov, id, voter) == Some(steps[k].approve)
    {
      LastVoteFound(start, steps, id, voter, k);
    }
    if k: nat :| Counts(start, steps, k, id, voter) {
      var counts := (m: nat) => Counts(start, steps, m, id, voter);
      var last := LastBefore(counts, k, |steps|);
      forall m: nat | last < m ensures !Counts(start, steps, m, id, voter) { assert m < |steps| ==> !counts(m); }
      assert LastlyCounts(start, steps, last, id, voter);
    } else {
      NoLastVote(start, steps, id, voter);
    }
  }

  // ---------- decisions ----------

  /** Those on the list in force whose last vote that counts is `answer`. */
  ghost function Saying(start: Gov, steps: seq<Step>, id: string, answer: bool): set<string> {
    set v | v in ListInForce(start, steps) && LastVote(start, steps, id, v) == Some(answer)
  }

  lemma SayingIs(start: Gov, steps: seq<Step>, id: string)
    requires start.proposals == map[] && FreshIds(start, steps) && id in Run(start, steps).gov.proposals
    requires Run(start, steps).gov.proposals[id].votes.Keys <= Run(start, steps).gov.supernodes
    ensures var p := Run(start, steps).gov.proposals[id];
      && Yes(p) == |Saying(start, steps, id, true)| && No(p) == |Saying(start, steps, id, false)|
      && |p.votes| == |Saying(start, steps, id, true)| + |Saying(start, steps, id, false)|
  {
    var g := Run(start, steps).gov;
    var p, ayes, noes := g.proposals[id], Saying(start, steps, id, true), Saying(start, steps, id, false);
    SupernodesAreInForce(start, steps);
    forall v ensures VoteOf(g, id, v) == LastVote(start, steps, id, v) { VoteIsLastVote(start, steps, id, v); }
    assert Ayes(p.votes) == ayes by {
      forall v ensures v in Ayes(p.votes) <==> v in ayes { assert VoteOf(g, id, v) == LastVote(start, steps, id, v); }
    }
    assert p.votes.Keys == ayes + noes by {
      forall v ensures v in p.votes <==> v in ayes + noes { assert VoteOf(g, id, v) == LastVote(start, steps, id, v); }
    }
    assert ayes !! noes;
  }

  /** The answer that these counts call for. */
  predicate Settles(answer: Option<bool>, ratio: real, total: nat, yes: nat, no: nat, timedOut: bool) {
    && (answer == Some(true) <==> yes as real >= ratio * total as real || (total == 2 && yes + no == 1 && timedOut))
    && (answer == Some(false) <==> no as real >= ratio * total as real)
  }

  /** In every run, while the list is the one a voted proposal was made under: it is approved
      exactly when those who last said yes reach the ratio, or one of two has voted and the
      timeout has passed; it is rejected exactly when those who last said no reach the ratio. */
  lemma DecidedByLastVotes(start: Gov, steps: seq<Step>, id: string, timeout: nat, now: nat)
    requires start.proposals == map[] && FreshIds(start, steps) && start.quorumRatio > 0.5
    requires id in Run(start, steps).stable && IsOpen(Run(start, steps).gov, id) && ListInForce(start, steps) != {}
    ensures var g, list := Run(start, steps).gov, ListInForce(start, steps);
      var yes, no := |Saying(start, steps, id, true)|, |Saying(start, steps, id, false)|;
      Settles(CheckQuorum(g, id, timeout, now), start.quorumRatio, |list|, yes, no,
              Elapsed(now, g.proposals[id].createdAt) > timeout)
  {
    StableFacts(start, steps, id);
    ByCounts(Run(start, steps).gov, id, timeout, now, |ListInForce(start, steps)|,
             |Saying(start, steps, id, true)|, |Saying(start, steps, id, false)|);
  }

  lemma ByCounts(g: Gov, id: string, timeout: nat, now: nat, total: nat, yes: nat, no: nat)
    requires IsOpen(g, id) && g.quorumRatio > 0.5 && 0 < total
    requires var p := g.proposals[id];
      p.supernodeCount == total && Yes(p) == yes && No(p) == no && |p.votes| == yes + no && yes + no <= total
    ensures Settles(CheckQuorum(g, id, timeout, now), g.quorumRatio, total, yes, no,
                    Elapsed(now, g.proposals[id].createdAt) > timeout)
  {
    QuorumDecides(g, id, timeout, now);
  }

  lemma StableFacts(start: Gov, steps: seq<Step>, id: string)
    requires start.proposals == map[] && FreshIds(start, steps) && id in Run(start, steps).stable
    ensures var g := Run(start, steps).gov;
      var yes, no := |Saying(start, steps, id, true)|, |Saying(start, steps, id, false)|;
      && g.quorumRatio == start.quorumRatio && id in g.proposals
      && g.proposals[id].supernodeCount == |ListInForce(start, steps)|
      && Yes(g.proposals[id]) == yes && No(g.proposals[id]) == no && |g.proposals[id].votes| == yes + no
      && yes + no <= |ListInForce(start, steps)|
  {
    RunOnward(start, steps, 0);
    assert steps[..0] == [];
    RunAccounted(start, steps, id);
    SupernodesAreInForce(start, steps);
    SayingIs(start, steps, id);
    SubsetSize(Run(start, steps).gov.proposals[id].votes.Keys, Run(start, steps).gov.supernodes);
  }

  // ---------- proposals ----------

  /** Step k made this proposal, with the target and the clock reading of that step; it counts
      one supernode if it was born executed, otherwise all on the list then in force. */
  ghost predicate MadeAt(start: Gov, steps: seq<Step>, k: nat, id: string, p: Proposal) {
    && k < |steps| && steps[k].Propose? && steps[k].id == id
    && p.target == steps[k].target && p.createdAt == steps[k].later
    && id in Run(start, steps[..k + 1]).gov.proposals
    && p.supernodeCount == if Run(start, steps[..k + 1]).gov.proposals[id].executed then 1
                           else |ListInForce(start, steps[..k])|
  }

  /** Votes and execution aside, a step leaves a proposal as it is. */
  predicate SameTerms(p: Proposal, q: Proposal) {
    p.target == q.target && p.createdAt == q.createdAt && p.supernodeCount == q.supernodeCount
  }

  lemma StepKeepsTerms(s: System, step: Step, id: string)
    requires step.Propose? ==> step.id !in s.gov.proposals
    ensures id in s.gov.proposals ==>
      id in Apply(s, step).gov.proposals && SameTerms(s.gov.proposals[id], Apply(s, step).gov.proposals[id])
    ensures id !in s.gov.proposals && id in Apply(s, step).gov.proposals ==> step.Propose? && step.id == id
  {
    match step
    case HandleVote(_, voter, approve, now, later) =>
      VoteKeepsTerms(s.gov, step.id, voter, approve, now, id);
      MarkKeepsTerms(RecordVote(s.gov, step.id, voter, approve, now).0, step.id, later, id);
    case Record(_, voter, approve, now) => VoteKeepsTerms(s.gov, step.id, voter, approve, now, id);
    case Mark(_, now) => MarkKeepsTerms(s.gov, step.id, now, id);
    case Propose(_, _, _, _) =>
    case Check(_, _) =>
    case ChangeSupernodes(_, _) =>
  }

  lemma VoteKeepsTerms(g: Gov, i: string, voter: string, approve: bool, now: nat, id: string)
    ensures var g' := RecordVote(g, i, voter, approve, now).0;
      g'.proposals.Keys == g.proposals.Keys && (id in g.proposals ==> SameTerms(g.proposals[id], g'.proposals[id]))
  {
  }

  lemma MarkKeepsTerms(g: Gov, i: string, now: nat, id: string)
    ensures var g' := MarkExecuted(g, i, now);
      g'.proposals.Keys == g.proposals.Keys && (id in g.proposals ==> SameTerms(g.proposals[id], g'.proposals[id]))
  {
  }

  lemma NewTerms(s: System, step: Step)
    requires step.Propose?
    ensures var p := Apply(s, step).gov.proposals[step.id];
      p.target == step.target && p.createdAt == step.later
      && p.supernodeCount == if p.executed then 1 else |s.gov.supernodes|
  {
  }

  /** In every run every proposal is as the step that made it says. */
  lemma {:induction false} ProposalIsAsMade(start: Gov, steps: seq<Step>, id: string) returns (k: nat)
    requires start.proposals == map[] && FreshIds(start, steps) && id in Run(start, steps).gov.proposals
    ensures MadeAt(start, steps, k, id, Run(start, steps).gov.proposals[id])
  {
    var n := |steps| - 1;
    var front := steps[..n];
    StepKeepsTerms(Run(start, front), steps[n], id);
    if id in Run(start, front).gov.proposals {
      k := ProposalIsAsMade(start, front, id);
      assert front[..k] == steps[..k] && front[..k + 1] == steps[..k + 1];
    } else {
      k := n;
      NewTerms(Run(start, front), steps[n]);
      SupernodesAreInForce(start, front);
      assert steps[..k + 1] == steps;
    }
  }

  /** A proposal made when there are no supernodes outside the bootstrap phase is rejected. */
  lemma NobodyRejects(g: Gov, id: string, timeout: nat, now: nat)
    requires IsOpen(g, id) && g.proposals[id].supernodeCount == 0
    ensures CheckQuorum(g, id, timeout, now) == Some(false)
  {
  }
}
