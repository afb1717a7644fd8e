/** Quorum voting with a bootstrap phase: src/governance/engine.rs, and the vote handler's
    record / check / mark step of src/network/runtime/events.rs.  Proposal ids and clock
    readings are inputs; ratios are reals. */
module Governance {
  import opened Basics

  const BOOTSTRAP_SECS := 3600
  const VOTE_TIMEOUT_SECS := 600

  datatype Proposal = Proposal(target: string, createdAt: nat, supernodeCount: nat,
                               votes: map<string, bool>, executed: bool)

  datatype Gov = Gov(proposals: map<string, Proposal>, supernodes: set<string>, quorumRatio: real,
                     bootstrapMode: bool, bootstrapExited: bool, deadline: nat)

  datatype VoteError = ProposalNotFound | AlreadyExecuted | NotASupernode

  // ---------- values ----------

  function AsSet(list: seq<string>): set<string> { set s | s in list }

  function New(supernodes: set<string>, quorumRatio: real, now: nat): Gov {
    Gov(map[], supernodes, quorumRatio, |supernodes| < 2, false, now + BOOTSTRAP_SECS)
  }

  function EvaluateBootstrap(g: Gov, now: nat): Gov {
    if g.bootstrapMode && now > g.deadline then g.(bootstrapMode := false, bootstrapExited := true) else g
  }

  function CreateProposal(g: Gov, id: string, target: string, now: nat, later: nat): Gov {
    var g' := EvaluateBootstrap(g, now);
    var p := if g'.bootstrapMode && !g'.bootstrapExited
             then Proposal(target, later, 1, map[], true)
             else Proposal(target, later, |g'.supernodes|, map[], false);
    g'.(proposals := g'.proposals[id := p])
  }

  function RecordVote(g: Gov, id: string, voter: string, approve: bool, now: nat): (Gov, Option<VoteError>) {
    var g' := EvaluateBootstrap(g, now);
    if id !in g'.proposals then (g', Some(ProposalNotFound))
    else
      var p := g'.proposals[id];
      if p.executed then (g', Some(AlreadyExecuted))
      else if voter !in g'.supernodes then (g', Some(NotASupernode))
      else (g'.(proposals := g'.proposals[id := p.(votes := p.votes[voter := approve])]), None)
  }

  function Ayes(votes: map<string, bool>): set<string> { set v | v in votes && votes[v] }

  function Yes(p: Proposal): nat { |Ayes(p.votes)| }

  lemma AyesAreVotes(votes: map<string, bool>)
    ensures |Ayes(votes)| <= |votes|
  {
    SubsetSize(Ayes(votes), votes.Keys);
  }

  function No(p: Proposal): nat {
    AyesAreVotes(p.votes);
    |p.votes| - Yes(p)
  }

  predicate Reaches(count: nat, p: Proposal, ratio: real)
    requires p.supernodeCount > 0
  {
    count as real / p.supernodeCount as real >= ratio
  }

  /** A u64 difference. */
  function Elapsed(now: nat, createdAt: nat): nat { (now - createdAt) % 0x1_0000_0000_0000_0000 }

  function CheckQuorum(g: Gov, id: string, timeout: nat, now: nat): Option<bool> {
    if id !in g.proposals || g.proposals[id].executed then None
    else
      var p := g.proposals[id];
      if p.supernodeCount == 0 then Some(false)
      else if Reaches(Yes(p), p, g.quorumRatio) then Some(true)
      else if Reaches(No(p), p, g.quorumRatio) then Some(false)
      else if p.supernodeCount == 2 && |p.votes| == 1 && Elapsed(now, p.createdAt) > timeout then Some(true)
      else None
  }

  function MarkExecuted(g: Gov, id: string, now: nat): Gov {
    var g' := EvaluateBootstrap(g, now);
    if id in g'.proposals then g'.(proposals := g'.proposals[id := g'.proposals[id].(executed := true)]) else g'
  }

  function UpdateSupernodes(g: Gov, list: set<string>, now: nat): Gov {
    var g' := EvaluateBootstrap(g, now);
    var h := g'.(supernodes := list);
    if |list| >= 2 && |g'.supernodes| < 2 then h.(bootstrapMode := false, bootstrapExited := true)
    else if |list| < 2 && !g'.bootstrapExited then h.(bootstrapMode := true)
    else h.(bootstrapMode := false)
  }

  // ---------- the engine object ----------

  class GovernanceEngine {
    var proposals: map<string, Proposal>
    var supernodes: set<string>
    var quorumRatio: real
    var bootstrapMode: bool
    var bootstrapExited: bool
    var deadline: nat

    ghost function State(): Gov
      reads this
    {
      Gov(proposals, supernodes, quorumRatio, bootstrapMode, bootstrapExited, deadline)
    }

    constructor (nodes: seq<string>, quorumRatio: real, now: nat)
      ensures State() == New(AsSet(nodes), quorumRatio, now)
    {
      var all := AsSet(nodes);
      proposals, supernodes, this.quorumRatio := map[], all, quorumRatio;
      bootstrapMode, bootstrapExited, deadline := |all| < 2, false, now + BOOTSTRAP_SECS;
    }

    method Evaluate(now: nat)
      modifies this
      ensures State() == EvaluateBootstrap(old(State()), now)
    {
      if bootstrapMode && now > deadline {
        bootstrapMode := false;
        bootstrapExited := true;
      }
    }

    method Create(id: string, target: string, now: nat, later: nat)
      modifies this
      ensures State() == CreateProposal(old(State()), id, target, now, later)
    {
      Evaluate(now);
      if bootstrapMode && !bootstrapExited {
        proposals := proposals[id := Proposal(target, later, 1, map[], true)];
        return;
      }
      proposals := proposals[id := Proposal(target, later, |supernodes|, map[], false)];
    }

    method Vote(id: string, voter: string, approve: bool, now: nat) returns (e: Option<VoteError>)
      modifies this
      ensures (State(), e) == RecordVote(old(State()), id, voter, approve, now)
    {
      Evaluate(now);
      if id !in proposals {
        return Some(ProposalNotFound);
      }
      var p := proposals[id];
      if p.executed {
        return Some(AlreadyExecuted);
      }
      if voter !in supernodes {
        return Some(NotASupernode);
      }
      proposals := proposals[id := p.(votes := p.votes[voter := approve])];
      e := None;
    }

    method Quorum(id: string, timeout: nat, now: nat) returns (r: Option<bool>)
      ensures r == CheckQuorum(State(), id, timeout, now)
    {
      if id !in proposals || proposals[id].executed {
        return None;
      }
      var p := proposals[id];
      if p.supernodeCount == 0 {
        return Some(false);
      }
      var yes := CountAyes(p.votes);
      AyesAreVotes(p.votes);
      var no := |p.votes| - yes;
      if Reaches(yes, p, quorumRatio) {
        return Some(true);
      }
      if Reaches(no, p, quorumRatio) {
        return Some(false);
      }
      if p.supernodeCount == 2 && |p.votes| == 1 && Elapsed(now, p.createdAt) > timeout {
        return Some(true);
      }
      r := None;
    }

    method Mark(id: string, now: nat)
      modifies this
      ensures State() == MarkExecuted(old(State()), id, now)
    {
      Evaluate(now);
      if id in proposals {
        proposals := proposals[id := proposals[id].(executed := true)];
      }
    }

    method Update(list: seq<string>, now: nat)
      modifies this
      ensures State() == UpdateSupernodes(old(State()), AsSet(list), now)
    {
      Evaluate(now);
      var oldLen := |supernodes|;
      supernodes := {};
      for i := 0 to |list|
        invariant supernodes == AsSet(list[..i])
        invariant State() == EvaluateBootstrap(old(State()), now).(supernodes := supernodes)
      {
        assert list[..i + 1] == list[..i] + [list[i]];
        supernodes := supernodes + {list[i]};
      }
      assert list[..|list|] == list;
      var count := |supernodes|;
      if count >= 2 && oldLen < 2 {
        bootstrapMode := false;
        bootstrapExited := true;
      } else if count < 2 && !bootstrapExited {
        bootstrapMode := true;
      } else {
        bootstrapMode := false;
      }
    }
  }

  method CountAyes(votes: map<string, bool>) returns (n: nat)
    ensures n == |Ayes(votes)|
  {
    var todo := votes.Keys;
    n := 0;
    ghost var counted: set<string> := {};
    while todo != {}
      invariant todo <= votes.Keys && n == |counted|
      invariant counted == set v | v in votes.Keys - todo && votes[v]
      decreases |todo|
    {
      var v :| v in todo;
      if votes[v] {
        n := n + 1;
        counted := counted + {v};
      }
      todo := todo - {v};
    }
    assert counted == Ayes(votes);
  }

  // ---------- one decision at a time ----------

  /** With a ratio above one half and no more votes than supernodes, at most one side wins. */
  lemma QuorumsExclude(p: Proposal, ratio: real)
    requires p.supernodeCount > 0 && |p.votes| <= p.supernodeCount && ratio > 0.5
    ensures !(Reaches(Yes(p), p, ratio) && Reaches(No(p), p, ratio))
  {
    var t := p.supernodeCount as real;
    ShareBound(Yes(p) as real, No(p) as real, t);
  }

  lemma ShareBound(y: real, n: real, t: real)
    requires t > 0.0 && y + n <= t
    ensures y / t + n / t <= 1.0
  {
  }

  /** With no more votes than supernodes and a ratio above one half, each outcome has its own
      condition, and the order of the tests does not matter. */
  lemma QuorumDecides(g: Gov, id: string, timeout: nat, now: nat)
    requires id in g.proposals && !g.proposals[id].executed && g.quorumRatio > 0.5
    requires 0 < g.proposals[id].supernodeCount && |g.proposals[id].votes| <= g.proposals[id].supernodeCount
    ensures var p := g.proposals[id]; var r := CheckQuorum(g, id, timeout, now);
      var late := p.supernodeCount == 2 && |p.votes| == 1 && Elapsed(now, p.createdAt) > timeout;
      && (r == Some(true) <==> Yes(p) as real >= g.quorumRatio * p.supernodeCount as real || late)
      && (r == Some(false) <==> No(p) as real >= g.quorumRatio * p.supernodeCount as real)
  {
    var p := g.proposals[id];
    QuorumsExclude(p, g.quorumRatio);
    ShareReaches(Yes(p) as real, p.supernodeCount as real, g.quorumRatio);
    ShareReaches(No(p) as real, p.supernodeCount as real, g.quorumRatio);
    if p.supernodeCount == 2 && |p.votes| == 1 {
      assert No(p) as real <= 1.0 && g.quorumRatio * 2.0 > 1.0;
    }
  }

  lemma ShareReaches(n: real, t: real, ratio: real)
    requires t > 0.0
    ensures n / t >= ratio <==> n >= ratio * t
  {
    assert n / t * t == n;
    if n / t >= ratio {
      assert (n / t - ratio) * t >= 0.0;
    } else {
      assert (ratio - n / t) * t > 0.0;
    }
  }

  /** An approval rests on a yes vote, except under the two-supernode timeout rule, which
      approves on one vote of either kind. */
  lemma ApprovalNeedsAYes(g: Gov, id: string, timeout: nat, now: nat)
    requires g.quorumRatio > 0.0 && CheckQuorum(g, id, timeout, now) == Some(true)
    ensures var p := g.proposals[id];
      Yes(p) > 0 || (p.supernodeCount == 2 && |p.votes| == 1 && No(p) == 1 && Elapsed(now, p.createdAt) > timeout)
  {
  }

  /** One "no" among two supernodes: decided as approved exactly when the timeout has passed. */
  lemma LoneNoIsApprovedAfterTimeout(g: Gov, id: string, timeout: nat, now: nat)
    requires id in g.proposals && !g.proposals[id].executed && g.quorumRatio > 0.5
    requires var p := g.proposals[id]; p.supernodeCount == 2 && |p.votes| == 1 && No(p) == 1
    ensures CheckQuorum(g, id, timeout, now) == Some(true) <==> Elapsed(now, g.proposals[id].createdAt) > timeout
  {
  }

  // ---------- runs ----------

  /** The steps taken under one lock.  The handler of an incoming vote records, checks and
      marks under a single one (`HandleVote`); the proposing node's own vote takes three
      (`Record`, `Check`, `Mark`). */
  datatype Step =
    | Propose(id: string, target: string, now: nat, later: nat)
    | HandleVote(id: string, voter: string, approve: bool, now: nat, later: nat)
    | Record(id: string, voter: string, approve: bool, now: nat)
    | Check(id: string, now: nat)
    | Mark(id: string, now: nat)
    | ChangeSupernodes(list: set<string>, now: nat)

  /** The engine; the ids decided so far, in order; the voted proposals created under the
      present supernode set; and the ids decided by a `Check` whose `Mark` is outstanding. */
  datatype System = System(gov: Gov, decided: seq<string>, stable: set<string>, open: set<string>)

  function Apply(s: System, step: Step): System {
    match step
    case Propose(id, target, now, later) =>
      var gov := CreateProposal(s.gov, id, target, now, later);
      s.(gov := gov, stable := if gov.proposals[id].executed then s.stable - {id} else s.stable + {id})
    case HandleVote(id, voter, approve, now, later) =>
      var (gov, error) := RecordVote(s.gov, id, voter, approve, now);
      if error.Some? || CheckQuorum(gov, id, VOTE_TIMEOUT_SECS, later).None? then s.(gov := gov)
      else s.(gov := MarkExecuted(gov, id, later), decided := s.decided + [id])
    case Record(id, voter, approve, now) =>
      s.(gov := RecordVote(s.gov, id, voter, approve, now).0)
    case Check(id, now) =>
      if CheckQuorum(s.gov, id, VOTE_TIMEOUT_SECS, now).None? then s
      else s.(decided := s.decided + [id], open := s.open + {id})
    case Mark(id, now) =>
      if id !in s.open then s else s.(gov := MarkExecuted(s.gov, id, now), open := s.open - {id})
    case ChangeSupernodes(list, now) =>
      s.(gov := UpdateSupernodes(s.gov, list, now), stable := if list == s.gov.supernodes then s.stable else {})
  }

  function Run(start: Gov, steps: seq<Step>): System {
    if steps == [] then System(start, [], {}, {}) else Apply(Run(start, steps[..|steps| - 1]), steps[|steps| - 1])
  }

  /** Proposal ids are never drawn twice. */
  predicate FreshIds(start: Gov, steps: seq<Step>) {
    steps == [] ||
    (FreshIds(start, steps[..|steps| - 1])
     && (steps[|steps| - 1].Propose? ==> steps[|steps| - 1].id !in Run(start, steps[..|steps| - 1]).gov.proposals))
  }

  ghost predicate Electorate(s: System, id: string) {
    id in s.gov.proposals
    && s.gov.proposals[id].votes.Keys <= s.gov.supernodes
    && s.gov.proposals[id].supernodeCount == |s.gov.supernodes|
  }

  /** A decided proposal is executed or waits for its mark, and only decided ones wait. */
  ghost predicate Accounted(s: System, id: string) {
    && (id in s.decided ==> id in s.gov.proposals && (s.gov.proposals[id].executed || id in s.open))
    && (id in s.open ==> id in s.decided)
    && (id in s.stable ==> Electorate(s, id))
  }

  lemma StepAccounted(s: System, step: Step, id: string)
    requires Accounted(s, id) && (step.Propose? ==> step.id !in s.gov.proposals)
    ensures Accounted(Apply(s, step), id)
  {
    match step
    case HandleVote(_, voter, approve, now, later) =>
      RecordAccounted(s, step.id, voter, approve, now, id);
      var (gov, error) := RecordVote(s.gov, step.id, voter, approve, now);
      if error.None? && CheckQuorum(gov, step.id, VOTE_TIMEOUT_SECS, later).Some? {
        MarkAccounted(s.(gov := gov), step.id, later, id);
      }
    case Record(_, voter, approve, now) => RecordAccounted(s, step.id, voter, approve, now, id);
    case Propose(_, _, _, _) =>
    case Check(_, _) =>
    case Mark(_, _) =>
    case ChangeSupernodes(_, _) =>
  }

  lemma RecordAccounted(s: System, id: string, voter: string, approve: bool, now: nat, x: string)
    requires Accounted(s, x)
    ensures Accounted(s.(gov := RecordVote(s.gov, id, voter, approve, now).0), x)
  {
  }

  lemma MarkAccounted(s: System, id: string, now: nat, x: string)
    requires Accounted(s, x) && id in s.gov.proposals
    ensures Accounted(s.(gov := MarkExecuted(s.gov, id, now), decided := s.decided + [id]), x)
  {
  }

  lemma {:induction false} RunAccounted(start: Gov, steps: seq<Step>, id: string)
    requires FreshIds(start, steps)
    ensures Accounted(Run(start, steps), id)
  {
    if steps != [] {
      RunAccounted(start, steps[..|steps| - 1], id);
      StepAccounted(Run(start, steps[..|steps| - 1]), steps[|steps| - 1], id);
    }
  }

  lemma DistinctSnoc(xs: seq<string>, x: string)
    ensures Distinct(xs + [x]) <==> Distinct(xs) && x !in xs
  {
    var ys := xs + [x];
    if Distinct(ys) {
      forall i | 0 <= i < |xs| ensures xs[i] != x { assert ys[i] != ys[|xs|]; }
      forall i, j | 0 <= i < j < |xs| ensures xs[i] != xs[j] { assert ys[i] != ys[j]; }
    }
  }

  /** A step decides nothing, or one proposal that exists and is not executed. */
  lemma StepDecides(s: System, step: Step)
    ensures var s' := Apply(s, step);
      || s'.decided == s.decided
      || ((step.HandleVote? || step.Check?) && s'.decided == s.decided + [step.id]
          && step.id in s.gov.proposals && !s.gov.proposals[step.id].executed)
  {
  }

  /** The id of a check whose mark is still to come, as the step list tells it. */
  function Unmarked(steps: seq<Step>): Option<string> {
    if steps == [] then None
    else
      match steps[|steps| - 1]
      case Check(id, _) => Some(id)
      case Mark(_, _) => None
      case _ => Unmarked(steps[..|steps| - 1])
  }

  /** One event loop handles one event at a time, so between the proposing node's check and its
      mark no vote is handled and nothing else is checked.  The supernode list may change. */
  predicate OneLoop(steps: seq<Step>) {
    steps == [] ||
    (OneLoop(steps[..|steps| - 1])
     && (Unmarked(steps[..|steps| - 1]).Some? ==>
           steps[|steps| - 1].ChangeSupernodes?
           || (steps[|steps| - 1].Mark? && steps[|steps| - 1].id == Unmarked(steps[..|steps| - 1]).value)))
  }

  lemma {:induction false} OpenIsUnmarked(start: Gov, steps: seq<Step>)
    requires OneLoop(steps)
    ensures forall id :: id in Run(start, steps).open ==> Unmarked(steps) == Some(id)
  {
    if steps != [] {
      OpenIsUnmarked(start, steps[..|steps| - 1]);
    }
  }

  /** In every run each proposal is decided at most once. */
  lemma {:induction false} DecidedOnce(start: Gov, steps: seq<Step>)
    requires FreshIds(start, steps) && OneLoop(steps)
    ensures Distinct(Run(start, steps).decided)
  {
    if steps != [] {
      var front, step := steps[..|steps| - 1], steps[|steps| - 1];
      var s := Run(start, front);
      DecidedOnce(start, front);
      StepDecides(s, step);
      if Apply(s, step).decided != s.decided {
        RunAccounted(start, front, step.id);
        OpenIsUnmarked(start, front);
        DistinctSnoc(s.decided, step.id);
      }
    }
  }

  lemma StepFreezes(s: System, step: Step, id: string)
    requires id in s.gov.proposals && s.gov.proposals[id].executed
    requires step.Propose? ==> step.id !in s.gov.proposals
    ensures id in Apply(s, step).gov.proposals && Apply(s, step).gov.proposals[id] == s.gov.proposals[id]
  {
  }

  /** An executed proposal, its votes included, is never changed again by any later step. */
  lemma {:induction false} ExecutedIsFinal(start: Gov, steps: seq<Step>, i: nat, id: string)
    requires i <= |steps| && FreshIds(start, steps)
    requires id in Run(start, steps[..i]).gov.proposals && Run(start, steps[..i]).gov.proposals[id].executed
    ensures id in Run(start, steps).gov.proposals
    ensures Run(start, steps).gov.proposals[id] == Run(start, steps[..i]).gov.proposals[id]
  {
    if i < |steps| {
      var front := steps[..|steps| - 1];
      assert front[..i] == steps[..i];
      ExecutedIsFinal(start, front, i, id);
      StepFreezes(Run(start, front), steps[|steps| - 1], id);
    } else {
      assert steps[..i] == steps;
    }
  }

  /** While the supernode set is the one a voted proposal was created under, its voters are
      supernodes, they are no more than it counts, and the two quorums exclude each other. */
  lemma VotersAreTheElectorate(start: Gov, steps: seq<Step>, id: string)
    requires FreshIds(start, steps) && start.quorumRatio > 0.5 && id in Run(start, steps).stable
    ensures var g := Run(start, steps).gov;
      && id in g.proposals && g.proposals[id].votes.Keys <= g.supernodes
      && |g.proposals[id].votes| <= g.proposals[id].supernodeCount
      && (g.proposals[id].supernodeCount > 0 ==>
            !(Reaches(Yes(g.proposals[id]), g.proposals[id], g.quorumRatio)
              && Reaches(No(g.proposals[id]), g.proposals[id], g.quorumRatio)))
  {
    RunAccounted(start, steps, id);
    RunOnward(start, steps, 0);
    assert steps[..0] == [];
    var s := Run(start, steps);
    var p := s.gov.proposals[id];
    SubsetSize(p.votes.Keys, s.gov.supernodes);
    if p.supernodeCount > 0 {
      QuorumsExclude(p, s.gov.quorumRatio);
    }
  }

  /** What no operation ever undoes. */
  predicate Onward(g: Gov, h: Gov) {
    h.quorumRatio == g.quorumRatio && h.deadline == g.deadline && (g.bootstrapExited ==> h.bootstrapExited)
  }

  lemma OperationsOnward(g: Gov, id: string, voter: string, approve: bool, list: set<string>, now: nat, later: nat)
    ensures Onward(g, CreateProposal(g, id, voter, now, later))
    ensures Onward(g, RecordVote(g, id, voter, approve, now).0)
    ensures Onward(g, MarkExecuted(g, id, now))
    ensures Onward(g, UpdateSupernodes(g, list, now))
  {
  }

  lemma StepOnward(s: System, step: Step)
    ensures Onward(s.gov, Apply(s, step).gov)
  {
    match step
    case Propose(id, target, now, later) => OperationsOnward(s.gov, id, target, true, {}, now, later);
    case HandleVote(id, voter, approve, now, later) =>
      OperationsOnward(s.gov, id, voter, approve, {}, now, later);
      OperationsOnward(RecordVote(s.gov, id, voter, approve, now).0, id, voter, approve, {}, later, later);
    case Record(id, voter, approve, now) => OperationsOnward(s.gov, id, voter, approve, {}, now, now);
    case Check(_, _) =>
    case Mark(id, now) => OperationsOnward(s.gov, id, id, true, {}, now, now);
    case ChangeSupernodes(list, now) => OperationsOnward(s.gov, "", "", true, list, now, now);
  }

  /** Over any stretch of any run the ratio and the deadline stay, and the bootstrap phase,
      once left, stays left. */
  lemma {:induction false} RunOnward(start: Gov, steps: seq<Step>, i: nat)
    requires i <= |steps|
    ensures Onward(Run(start, steps[..i]).gov, Run(start, steps).gov)
  {
    if i < |steps| {
      var front := steps[..|steps| - 1];
      assert front[..i] == steps[..i];
      RunOnward(start, front, i);
      StepOnward(Run(start, front), steps[|steps| - 1]);
    } else {
      assert steps[..i] == steps;
    }
  }

  // ---------- the bootstrap phase ends for good ----------

  /** Bootstrap mode is being below two supernodes and never having left it. */
  predicate ModeFollows(g: Gov) { g.bootstrapMode <==> |g.supernodes| < 2 && !g.bootstrapExited }

  lemma OperationsFollow(g: Gov, id: string, voter: string, approve: bool, list: set<string>, now: nat, later: nat)
    requires ModeFollows(g)
    ensures ModeFollows(CreateProposal(g, id, voter, now, later))
    ensures ModeFollows(RecordVote(g, id, voter, approve, now).0)
    ensures ModeFollows(MarkExecuted(g, id, now))
    ensures ModeFollows(UpdateSupernodes(g, list, now))
  {
  }

  lemma {:induction false} RunFollows(nodes: set<string>, ratio: real, made: nat, steps: seq<Step>)
    ensures ModeFollows(Run(New(nodes, ratio, made), steps).gov)
  {
    if steps != [] {
      var s := Run(New(nodes, ratio, made), steps[..|steps| - 1]);
      RunFollows(nodes, ratio, made, steps[..|steps| - 1]);
      match steps[|steps| - 1]
      case Propose(id, target, now, later) => OperationsFollow(s.gov, id, target, true, {}, now, later);
      case HandleVote(id, voter, approve, now, later) =>
        OperationsFollow(s.gov, id, voter, approve, {}, now, later);
        OperationsFollow(RecordVote(s.gov, id, voter, approve, now).0, id, voter, approve, {}, later, later);
      case Record(id, voter, approve, now) => OperationsFollow(s.gov, id, voter, approve, {}, now, now);
      case Check(_, _) =>
      case Mark(id, now) => OperationsFollow(s.gov, id, id, true, {}, now, now);
      case ChangeSupernodes(list, now) => OperationsFollow(s.gov, "", "", true, list, now, now);
    }
  }

  /** In every run of a new engine a proposal is born executed exactly when there are fewer
      than two supernodes, the deadline has not passed and the bootstrap phase was never left. */
  lemma BornExecuted(nodes: set<string>, ratio: real, made: nat, steps: seq<Step>,
                     id: string, target: string, now: nat, later: nat)
    ensures var start := New(nodes, ratio, made); var g := Run(start, steps).gov;
      CreateProposal(g, id, target, now, later).proposals[id].executed
      <==> |g.supernodes| < 2 && now <= made + BOOTSTRAP_SECS && !g.bootstrapExited
  {
    RunOnward(New(nodes, ratio, made), steps, 0);
    assert steps[..0] == [];
    RunFollows(nodes, ratio, made, steps);
  }

  /** Once left at any point of a run, the phase lets no later proposal be born executed. */
  lemma NeverBornExecutedAgain(start: Gov, steps: seq<Step>, i: nat, id: string, target: string, now: nat, later: nat)
    requires i <= |steps| && Run(start, steps[..i]).gov.bootstrapExited
    ensures !CreateProposal(Run(start, steps).gov, id, target, now, later).proposals[id].executed
  {
    RunOnward(start, steps, i);
  }

  /** The phase is left by growing from below two supernodes to two, and by any operation that
      finds the deadline passed. */
  lemma LeavesBootstrap(g: Gov, list: set<string>, now: nat)
    requires ModeFollows(g)
    ensures UpdateSupernodes(g, list, now).bootstrapExited
        <==> g.bootstrapExited || (|g.supernodes| < 2 && (|list| >= 2 || now > g.deadline))
  {
  }
}
