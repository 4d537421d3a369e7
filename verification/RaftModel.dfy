/** The Raft reference model: a log that grows only with a reachable quorum, and
    membership changes through a joint configuration. */
module RaftModel {
  import opened Sequences

  /** The digest of a command, its index and its term. */
  type Digest = (string, nat, nat) -> string

  datatype Cluster = Cluster(
    term: nat, leader: nat, epoch: nat,
    voters: set<nat>, joint: Option<set<nat>>, reachable: set<nat>,
    log: seq<string>)

  const INITIAL := Cluster(1, 1, 1, {1, 2, 3}, None, {1, 2, 3}, [])

  function Quorum(group: set<nat>): nat {
    |group| / 2 + 1
  }

  predicate HasQuorum(reachable: set<nat>, group: set<nat>) {
    |reachable * group| >= Quorum(group)
  }

  predicate CanCommit(c: Cluster) {
    HasQuorum(c.reachable, c.voters) && (c.joint.Some? ==> HasQuorum(c.reachable, c.joint.value))
  }

  datatype Step =
    | Append(command: string)
    | Partition(reachable: set<nat>)
    | EnterJoint(group: set<nat>)
    | Finalize

  /** A joint configuration is entered from a simple one and left only while it can commit. */
  predicate Enabled(c: Cluster, step: Step) {
    match step
    case EnterJoint(_) => c.joint.None?
    case Finalize => c.joint.Some? && CanCommit(c)
    case _ => true
  }

  predicate IsLeast(group: set<nat>, m: nat) {
    m in group && forall x | x in group :: m <= x
  }

  function Least(group: set<nat>): (m: nat)
    requires group != {}
    ensures m in group && forall x | x in group :: m <= x
  {
    LeastExists(group);
    var m :| IsLeast(group, m);
    m
  }

  lemma {:induction false} LeastExists(group: set<nat>)
    requires group != {}
    ensures exists m :: IsLeast(group, m)
  {
    var x :| x in group;
    var rest := group - {x};
    assert forall y | y in group :: y == x || y in rest;
    if rest == {} {
      assert IsLeast(group, x);
    } else {
      LeastExists(rest);
      var m :| IsLeast(rest, m);
      assert IsLeast(group, if x < m then x else m);
    }
  }

  lemma QuorumInhabited(reachable: set<nat>, group: set<nat>)
    requires HasQuorum(reachable, group)
    ensures group != {}
  {
    assert group == {} ==> reachable * group == {};
  }

  function Next(digest: Digest, c: Cluster, step: Step): Cluster
    requires Enabled(c, step)
  {
    match step
    case Append(command) =>
      if CanCommit(c) then c.(log := c.log + [digest(command, |c.log| + 1, c.term)]) else c
    case Partition(reachable) => c.(reachable := reachable)
    case EnterJoint(group) =>
      c.(joint := Some(group), reachable := c.reachable + group, epoch := c.epoch + 1)
    case Finalize =>
      var voters := c.joint.value;
      QuorumInhabited(c.reachable, voters);
      var moved := c.leader !in voters;
      c.(voters := voters, joint := None, reachable := c.reachable * voters, epoch := c.epoch + 1,
         leader := if moved then Least(voters) else c.leader,
         term := if moved then c.term + 1 else c.term)
  }

  // ----- runs

  /** Every step of the run is enabled when it is taken. */
  predicate Run(digest: Digest, c: Cluster, steps: seq<Step>)
    decreases steps
  {
    steps == [] || (Enabled(c, steps[0]) && Run(digest, Next(digest, c, steps[0]), steps[1..]))
  }

  function End(digest: Digest, c: Cluster, steps: seq<Step>): Cluster
    requires Run(digest, c, steps)
    decreases steps
  {
    if steps == [] then c else End(digest, Next(digest, c, steps[0]), steps[1..])
  }

  /** The commands a run commits, with the term of each. */
  function Accepted(digest: Digest, c: Cluster, steps: seq<Step>): seq<(string, nat)>
    requires Run(digest, c, steps)
    decreases steps
  {
    if steps == [] then []
    else
      (if steps[0].Append? && CanCommit(c) then [(steps[0].command, c.term)] else [])
      + Accepted(digest, Next(digest, c, steps[0]), steps[1..])
  }

  /** The log entries of `commands` from position `from` on. */
  function Entries(digest: Digest, commands: seq<(string, nat)>, from: nat): seq<string> {
    if commands == [] then []
    else [digest(commands[0].0, from, commands[0].1)] + Entries(digest, commands[1..], from + 1)
  }

  function MembershipSteps(steps: seq<Step>): nat {
    if steps == [] then 0
    else (if steps[0].EnterJoint? || steps[0].Finalize? then 1 else 0) + MembershipSteps(steps[1..])
  }

  /** The log is the start log followed by exactly the accepted commands, each with its index and term. */
  lemma {:induction false} LogIsAcceptedCommands(digest: Digest, c: Cluster, steps: seq<Step>)
    requires Run(digest, c, steps)
    ensures End(digest, c, steps).log == c.log + Entries(digest, Accepted(digest, c, steps), |c.log| + 1)
    decreases steps
  {
    if steps != [] {
      var d := Next(digest, c, steps[0]);
      LogIsAcceptedCommands(digest, d, steps[1..]);
      var rest := Accepted(digest, d, steps[1..]);
      if steps[0].Append? && CanCommit(c) {
        var head := (steps[0].command, c.term);
        assert Accepted(digest, c, steps) == [head] + rest;
        assert ([head] + rest)[1..] == rest;
        assert d.log == c.log + [digest(head.0, |c.log| + 1, head.1)];
      } else {
        assert Accepted(digest, c, steps) == rest;
      }
    }
  }

  /** The steps of a run that change the leader. */
  function LeaderChanges(digest: Digest, c: Cluster, steps: seq<Step>): nat
    requires Run(digest, c, steps)
    decreases steps
  {
    if steps == [] then 0
    else
      var d := Next(digest, c, steps[0]);
      (if d.leader != c.leader then 1 else 0) + LeaderChanges(digest, d, steps[1..])
  }

  /** The leader is a voter, the epoch counts the membership steps and the term the changes of leader. */
  lemma {:induction false} RunInvariant(digest: Digest, c: Cluster, steps: seq<Step>)
    requires Run(digest, c, steps) && c.leader in c.voters
    ensures var e := End(digest, c, steps);
            && e.leader in e.voters
            && e.epoch == c.epoch + MembershipSteps(steps)
            && e.term == c.term + LeaderChanges(digest, c, steps)
    decreases steps
  {
    if steps != [] { RunInvariant(digest, Next(digest, c, steps[0]), steps[1..]); }
  }

  /** Without a quorum an append changes nothing at all; with one it adds exactly one entry. */
  lemma AppendAllOrNothing(digest: Digest, c: Cluster, command: string)
    ensures !CanCommit(c) ==> Next(digest, c, Append(command)) == c
    ensures CanCommit(c) ==> |Next(digest, c, Append(command)).log| == |c.log| + 1
  {
  }

  // ----- quorum intersection

  lemma QuorumsIntersect(r: set<nat>, s: set<nat>, group: set<nat>)
    requires HasQuorum(r, group) && HasQuorum(s, group)
    ensures r * s != {}
  {
    var a, b := r * group, s * group;
    SubsetCard(a + b, group);
    assert |a| + |b| == |a + b| + |a * b|;
    var x :| x in a * b;
    assert x in r * s;
  }

  /** The configurations that a single step can lead between: equal, simple to joint, joint to its new group. */
  predicate Adjacent(c: Cluster, d: Cluster) {
    || (c.voters == d.voters && c.joint == d.joint)
    || (c.joint.None? && c.voters == d.voters && d.joint.Some?)
    || (c.joint.Some? && d.joint.None? && d.voters == c.joint.value)
  }

  /** Two sets of nodes able to commit in the same or adjacent configurations share a node. */
  lemma AdjacentCommitsIntersect(c: Cluster, d: Cluster)
    requires Adjacent(c, d) && CanCommit(c) && CanCommit(d)
    ensures c.reachable * d.reachable != {}
  {
    if c.voters == d.voters {
      QuorumsIntersect(c.reachable, d.reachable, c.voters);
    } else {
      QuorumsIntersect(c.reachable, d.reachable, c.joint.value);
    }
  }

  /** Along a run with at most one membership step, any two commits share a node. */
  lemma {:induction false} CommitsOfRunIntersect(digest: Digest, c: Cluster, steps: seq<Step>)
    requires Run(digest, c, steps) && MembershipSteps(steps) <= 1
    requires CanCommit(c) && CanCommit(End(digest, c, steps))
    ensures c.reachable * End(digest, c, steps).reachable != {}
  {
    ConfigurationAfter(digest, c, steps);
    AdjacentCommitsIntersect(c, End(digest, c, steps));
  }

  lemma {:induction false} ConfigurationAfter(digest: Digest, c: Cluster, steps: seq<Step>)
    requires Run(digest, c, steps) && MembershipSteps(steps) <= 1
    ensures Adjacent(c, End(digest, c, steps))
    ensures MembershipSteps(steps) == 0 ==>
              End(digest, c, steps).voters == c.voters && End(digest, c, steps).joint == c.joint
    decreases steps
  {
    if steps != [] { ConfigurationAfter(digest, Next(digest, c, steps[0]), steps[1..]); }
  }

  // ----- commits of a whole run are linked

  /** Clusters able to commit, each sharing a reachable node with the one before it. */
  ghost predicate Chain(chain: seq<Cluster>) {
    && (forall i | 0 <= i < |chain| :: CanCommit(chain[i]))
    && (forall i | 0 < i < |chain| :: chain[i - 1].reachable * chain[i].reachable != {})
  }

  /** A configuration that has just been finalized can commit. */
  lemma FinalizedCanCommit(digest: Digest, c: Cluster)
    requires Enabled(c, Finalize)
    ensures CanCommit(Next(digest, c, Finalize))
  {
    assert (c.reachable * c.joint.value) * c.joint.value == c.reachable * c.joint.value;
  }

  /** `last` could commit and `c` is in its configuration or the joint one after it. */
  predicate Anchored(last: Cluster, c: Cluster) {
    CanCommit(last) && Adjacent(last, c) && (c.joint.None? ==> last.joint.None? && last.voters == c.voters)
  }

  lemma {:induction false} LinkCommits(digest: Digest, last: Cluster, c: Cluster, steps: seq<Step>)
      returns (chain: seq<Cluster>)
    requires Run(digest, c, steps) && Anchored(last, c) && CanCommit(End(digest, c, steps))
    ensures Chain(chain) && |chain| > 0 && chain[0] == last && chain[|chain| - 1] == End(digest, c, steps)
    decreases steps
  {
    if steps == [] {
      AdjacentCommitsIntersect(last, c);
      chain := [last, c];
    } else {
      var d := Next(digest, c, steps[0]);
      if steps[0].Finalize? {
        FinalizedCanCommit(digest, c);
        AdjacentCommitsIntersect(last, c);
        AdjacentCommitsIntersect(c, d);
        var rest := LinkCommits(digest, d, d, steps[1..]);
        chain := [last, c] + rest;
      } else {
        chain := LinkCommits(digest, last, d, steps[1..]);
      }
    }
  }

  /** Over any number of membership changes, every commit is linked to every later one by
      clusters able to commit whose reachable sets overlap pairwise: no membership change
      can cut the history in two. */
  lemma CommitsAreLinked(digest: Digest, c: Cluster, steps: seq<Step>)
    requires Run(digest, c, steps) && CanCommit(c) && CanCommit(End(digest, c, steps))
    ensures exists chain :: Chain(chain) && |chain| > 0 && chain[0] == c && chain[|chain| - 1] == End(digest, c, steps)
  {
    var chain := LinkCommits(digest, c, c, steps);
  }

  // ----- when commits of any two configurations meet

  lemma {:induction false} PickSubset(group: set<nat>, k: nat) returns (part: set<nat>)
    requires k <= |group|
    ensures part <= group && |part| == k
  {
    if k == |group| {
      part := group;
    } else {
      var x :| x in group;
      part := PickSubset(group - {x}, k);
    }
  }

  function Max(a: int, b: int): int {
    if a < b then b else a
  }

  function Min(a: int, b: int): int {
    if a < b then a else b
  }

  /** How many nodes of `b` a quorum of `a` needs at least. */
  function Needs(a: set<nat>, b: set<nat>): nat {
    Max(0, Quorum(a) - |a - b|)
  }

  /** How many nodes of `b` a set with a quorum of both `a1` and `a2` needs at least. */
  function NeedsOfBoth(a1: set<nat>, a2: set<nat>, b: set<nat>): int {
    Max(Max(Needs(a1, b), Needs(a2, b)), Needs(a1, b) + Needs(a2, b) - |a1 * a2 * b|)
  }

  /** Every set with a quorum of both groups shares a node with every quorum of `b`. */
  ghost predicate JointMeets(a1: set<nat>, a2: set<nat>, b: set<nat>) {
    forall r, s | HasQuorum(r, a1) && HasQuorum(r, a2) && HasQuorum(s, b) :: r * s != {}
  }

  lemma HasNeeded(r: set<nat>, a: set<nat>, b: set<nat>)
    requires HasQuorum(r, a)
    ensures |r * a * b| >= Needs(a, b)
  {
    assert r * a == r * (a - b) + r * a * b;
    SubsetCard(r * (a - b), a - b);
  }

  lemma HasNeededOfBoth(r: set<nat>, a1: set<nat>, a2: set<nat>, b: set<nat>)
    requires HasQuorum(r, a1) && HasQuorum(r, a2)
    ensures |r * b| >= NeedsOfBoth(a1, a2, b)
  {
    var x, y := r * a1 * b, r * a2 * b;
    HasNeeded(r, a1, b);
    HasNeeded(r, a2, b);
    SubsetCard(x, r * b);
    SubsetCard(y, r * b);
    SubsetCard(x + y, r * b);
    assert |x| + |y| == |x + y| + |x * y|;
    SubsetCard(x * y, a1 * a2 * b);
  }

  lemma ScarceMeets(r: set<nat>, s: set<nat>, a1: set<nat>, a2: set<nat>, b: set<nat>)
    requires HasQuorum(r, a1) && HasQuorum(r, a2) && HasQuorum(s, b)
    requires NeedsOfBoth(a1, a2, b) > |b| - Quorum(b)
    ensures r * s != {}
  {
    HasNeededOfBoth(r, a1, a2, b);
    var x, y := r * b, s * b;
    SubsetCard(x + y, b);
    assert |x| + |y| == |x + y| + |x * y|;
    assert x * y <= r * s;
  }

  /** How many common nodes to take: enough that the rest of each need fits its own part. */
  function Shared(n1: nat, n2: nat, m1: nat, m2: nat, common: nat): (k: int)
    requires n1 <= m1 + common && n2 <= m2 + common
    ensures 0 <= k <= common && n1 - k <= m1 && n2 - k <= m2
    ensures k + Max(0, n1 - k) + Max(0, n2 - k) == Max(Max(n1, n2), n1 + n2 - common)
  {
    Max(Min(Min(n1, n2), common), Max(n1 - m1, n2 - m2))
  }

  /** A least set with a quorum of both groups: all nodes outside `b`, and as few inside as are needed. */
  lemma LeastJoint(a1: set<nat>, a2: set<nat>, b: set<nat>) returns (r: set<nat>)
    requires a1 != {} && a2 != {}
    ensures HasQuorum(r, a1) && HasQuorum(r, a2) && |r * b| == NeedsOfBoth(a1, a2, b)
  {
    var common, own1, own2 := a1 * a2 * b, a1 * b - a2, a2 * b - a1;
    var n1, n2 := Needs(a1, b), Needs(a2, b);
    Parts(a1, a2, b);
    Parts(a2, a1, b);
    assert a2 * a1 * b == common;
    var k := Shared(n1, n2, |own1|, |own2|, |common|);
    var c := PickSubset(common, k);
    var x := PickSubset(own1, Max(0, n1 - k));
    var y := PickSubset(own2, Max(0, n2 - k));
    r := Assembled(a1, a2, b, c, x, y);
  }

  lemma Assembled(a1: set<nat>, a2: set<nat>, b: set<nat>, c: set<nat>, x: set<nat>, y: set<nat>) returns (r: set<nat>)
    requires c <= a1 * a2 * b && x <= a1 * b - a2 && y <= a2 * b - a1
    requires |c| + |x| >= Needs(a1, b) && |c| + |y| >= Needs(a2, b)
    ensures HasQuorum(r, a1) && HasQuorum(r, a2) && |r * b| == |c| + |x| + |y|
  {
    var inside, outside := c + x + y, (a1 - b) + (a2 - b);
    r := outside + inside;
    assert outside * b == {};
    InsideOf(outside, inside, b);
    Disjoint3(c, x, y);
    assert a1 - b <= outside <= r && a2 - b <= outside && inside <= r;
    EnoughOf(r, a1, b, c, x);
    EnoughOf(r, a2, b, c, y);
  }

  lemma InsideOf(outside: set<nat>, inside: set<nat>, b: set<nat>)
    requires inside <= b && outside * b == {}
    ensures (outside + inside) * b == inside
  {
    forall n | n in outside ensures n !in b {
      assert n !in outside * b;
    }
  }

  lemma Disjoint3(c: set<nat>, x: set<nat>, y: set<nat>)
    requires c * x == {} && c * y == {} && x * y == {}
    ensures |c + x + y| == |c| + |x| + |y|
  {
    assert |c + x| == |c| + |x|;
    assert (c + x) * y == {};
  }

  lemma Parts(a: set<nat>, other: set<nat>, b: set<nat>)
    requires a != {}
    ensures Needs(a, b) <= |a * b - other| + |a * other * b|
  {
    assert a * b == (a * b - other) + a * other * b;
    assert a == (a - b) + a * b;
    assert |a| > 0;
  }

  lemma EnoughOf(r: set<nat>, a: set<nat>, b: set<nat>, c: set<nat>, x: set<nat>)
    requires a - b <= r && c <= r && x <= r && c <= a * b && x <= a * b && c * x == {} && |c| + |x| >= Needs(a, b)
    ensures HasQuorum(r, a)
  {
    assert |c + x| == |c| + |x|;
    assert |(a - b) + (c + x)| == |a - b| + |c + x|;
    SubsetCard((a - b) + (c + x), r * a);
  }

  lemma Spared(r: set<nat>, b: set<nat>)
    ensures |(b - r) * b| == |b| - |r * b| && r * (b - r) == {}
  {
    assert (b - r) * b == b - r && b == (b - r) + r * b;
  }

  /** The exact condition: with one side joint, commits always meet when the joint side needs more nodes
      of the other group than that group can spare; an empty group has no quorum. */
  lemma JointMeetsExactly(a1: set<nat>, a2: set<nat>, b: set<nat>)
    ensures JointMeets(a1, a2, b) <==>
            a1 == {} || a2 == {} || b == {} || NeedsOfBoth(a1, a2, b) > |b| - Quorum(b)
  {
    if a1 == {} || a2 == {} || b == {} {
      forall r, s ensures !(HasQuorum(r, a1) && HasQuorum(r, a2) && HasQuorum(s, b)) {
        assert r * {} == {} && s * {} == {};
      }
    } else if NeedsOfBoth(a1, a2, b) > |b| - Quorum(b) {
      forall r, s | HasQuorum(r, a1) && HasQuorum(r, a2) && HasQuorum(s, b) ensures r * s != {} {
        ScarceMeets(r, s, a1, a2, b);
      }
    } else {
      var r := LeastJoint(a1, a2, b);
      Spared(r, b);
      assert HasQuorum(b - r, b) && r * (b - r) == {};
    }
  }

  /** A simple configuration is a joint one of a group with itself. */
  lemma SimpleIsJoint(a: set<nat>, b: set<nat>)
    requires a != {} && b != {}
    ensures NeedsOfBoth(a, a, b) > |b| - Quorum(b) <==> Quorum(a) + Quorum(b) > |a + b|
  {
    Parts(a, a, b);
    assert a * a * b == a * b && a * b - a == {};
    assert a + b == (a - b) + b && |a + b| == |a - b| + |b|;
  }

  /** Every quorum of `a` shares a node with every quorum of `b`. */
  ghost predicate QuorumsMeet(a: set<nat>, b: set<nat>) {
    forall r, s | HasQuorum(r, a) && HasQuorum(s, b) :: r * s != {}
  }

  /** Quorums of two groups always meet exactly when together they outnumber the union; an empty
      group has no quorum at all. */
  lemma QuorumsMeetExactly(a: set<nat>, b: set<nat>)
    ensures QuorumsMeet(a, b) <==> a == {} || b == {} || Quorum(a) + Quorum(b) > |a + b|
  {
    JointMeetsExactly(a, a, b);
    assert QuorumsMeet(a, b) <==> JointMeets(a, a, b);
    if a != {} && b != {} {
      SimpleIsJoint(a, b);
    }
  }

  // ----- lifted to runs

  /** Whenever `c` and the end of the run can commit, however the nodes are partitioned at the time,
      the two reachable sets share a node. */
  ghost predicate CommitsMeet(c: Cluster, e: Cluster) {
    forall r, s | CanCommit(c.(reachable := r)) && CanCommit(e.(reachable := s)) :: r * s != {}
  }

  /** The second group of a configuration; a simple one has its voters twice. */
  function Second(c: Cluster): set<nat> {
    if c.joint.Some? then c.joint.value else c.voters
  }

  lemma CommitsOf(c: Cluster, r: set<nat>)
    ensures CanCommit(c.(reachable := r)) <==> HasQuorum(r, c.voters) && HasQuorum(r, Second(c))
  {
  }

  /** A commit of `c` needs more of the voters of `e` than a quorum of them can spare, or there is none. */
  predicate Scarce(c: Cluster, e: Cluster) {
    || c.voters == {} || Second(c) == {} || e.voters == {}
    || NeedsOfBoth(c.voters, Second(c), e.voters) > |e.voters| - Quorum(e.voters)
  }

  /** Commits of a configuration, simple or joint, and of a simple one always share a node exactly when
      the first needs more of the simple one's voters than its quorum can spare. */
  lemma ClustersMeetExactly(c: Cluster, e: Cluster)
    requires e.joint.None?
    ensures CommitsMeet(c, e) <==> Scarce(c, e)
    ensures CommitsMeet(e, c) <==> CommitsMeet(c, e)
  {
    JointMeetsExactly(c.voters, Second(c), e.voters);
    forall r ensures CanCommit(c.(reachable := r)) <==> HasQuorum(r, c.voters) && HasQuorum(r, Second(c)) {
      CommitsOf(c, r);
    }
    forall s ensures CanCommit(e.(reachable := s)) <==> HasQuorum(s, e.voters) {
      CommitsOf(e, s);
    }
    assert CommitsMeet(c, e) <==> JointMeets(c.voters, Second(c), e.voters);
    if CommitsMeet(c, e) {
      MeetingIsSymmetric(c, e);
    }
    if CommitsMeet(e, c) {
      MeetingIsSymmetric(e, c);
    }
  }

  lemma MeetingIsSymmetric(c: Cluster, e: Cluster)
    requires CommitsMeet(c, e)
    ensures CommitsMeet(e, c)
  {
    forall s, r | CanCommit(e.(reachable := s)) && CanCommit(c.(reachable := r)) ensures s * r != {} {
      assert r * s == s * r;
    }
  }

  /** These voters of `c` can commit while the other voters of `e` can, too. */
  predicate LeavesRoom(c: Cluster, e: Cluster, r: set<nat>) {
    && r <= c.voters + Second(c) && CanCommit(c.(reachable := r))
    && CanCommit(e.(reachable := e.voters + Second(e) - r))
  }

  /** Any two configurations, joint or simple: commits always share a node exactly when no set of the
      first one's voters can commit and leave room for a commit of the second. */
  lemma CommitsMeetOnVoters(c: Cluster, e: Cluster)
    ensures CommitsMeet(c, e) <==> forall r :: !LeavesRoom(c, e, r)
  {
    if r :| LeavesRoom(c, e, r) {
      var s := e.voters + Second(e) - r;
      assert CanCommit(c.(reachable := r)) && CanCommit(e.(reachable := s)) && r * s == {};
    } else {
      forall r, s | CanCommit(c.(reachable := r)) && CanCommit(e.(reachable := s)) ensures r * s != {} {
        if r * s == {} {
          ApartOnVoters(c, e, r, s);
          assert false;
        }
      }
    }
  }

  lemma ApartOnVoters(c: Cluster, e: Cluster, r: set<nat>, s: set<nat>)
    requires CanCommit(c.(reachable := r)) && CanCommit(e.(reachable := s)) && r * s == {}
    ensures LeavesRoom(c, e, r * (c.voters + Second(c)))
  {
    var kept, others := r * (c.voters + Second(c)), e.voters + Second(e);
    SameQuorums(c, r, kept);
    forall n | n in s * others ensures n in others - kept {
      assert n !in r * s;
    }
    MoreQuorums(e, s, others - kept);
  }

  /** Only the voters among the reachable nodes count. */
  lemma SameQuorums(c: Cluster, r: set<nat>, kept: set<nat>)
    requires kept == r * (c.voters + Second(c)) && CanCommit(c.(reachable := r))
    ensures CanCommit(c.(reachable := kept))
  {
    assert kept * c.voters == r * c.voters && kept * Second(c) == r * Second(c);
    CommitsOf(c, r);
    CommitsOf(c, kept);
  }

  /** More reachable voters can still commit. */
  lemma MoreQuorums(e: Cluster, s: set<nat>, more: set<nat>)
    requires CanCommit(e.(reachable := s)) && s * (e.voters + Second(e)) <= more
    ensures CanCommit(e.(reachable := more))
  {
    CommitsOf(e, s);
    CommitsOf(e, more);
    SubsetCard(s * e.voters, more * e.voters);
    SubsetCard(s * Second(e), more * Second(e));
  }

  /** Between two configurations of a run of which one at least is simple, over any number of membership
      steps, the condition is exact; between two simple ones it says that the two quorums together
      outnumber the union of the voters. */
  lemma CommitsMeetExactly(digest: Digest, c: Cluster, steps: seq<Step>)
    requires Run(digest, c, steps) && (c.joint.None? || End(digest, c, steps).joint.None?)
    ensures var e := End(digest, c, steps);
            && (e.joint.None? ==> (CommitsMeet(c, e) <==> Scarce(c, e)))
            && (c.joint.None? ==> (CommitsMeet(c, e) <==> Scarce(e, c)))
            && (c.joint.None? && e.joint.None? ==>
                 (CommitsMeet(c, e) <==> c.voters == {} || Quorum(c.voters) + Quorum(e.voters) > |c.voters + e.voters|))
  {
    var e := End(digest, c, steps);
    if c.voters != {} {
      VotersRemain(digest, c, steps);
    }
    if e.joint.None? {
      ClustersMeetExactly(c, e);
    }
    if c.joint.None? {
      ClustersMeetExactly(e, c);
    }
    if c.joint.None? && e.joint.None? && c.voters != {} {
      SimpleIsJoint(c.voters, e.voters);
    }
  }

  /** No run loses all its voters. */
  lemma {:induction false} VotersRemain(digest: Digest, c: Cluster, steps: seq<Step>)
    requires Run(digest, c, steps) && c.voters != {}
    ensures End(digest, c, steps).voters != {}
    decreases steps
  {
    if steps != [] {
      if steps[0].Finalize? {
        QuorumInhabited(c.reachable, c.joint.value);
      }
      VotersRemain(digest, Next(digest, c, steps[0]), steps[1..]);
    }
  }

  /** Any two partitions can be the ones in force at the two ends of a run: the nodes are cut to `r`,
      restored, and cut to `s` at the end. */
  lemma PartitionsOccur(digest: Digest, c: Cluster, steps: seq<Step>, r: set<nat>, s: set<nat>)
    requires Run(digest, c, steps)
    ensures var rest := [Partition(c.reachable)] + steps + [Partition(s)];
            && Run(digest, c, [Partition(r)])
            && End(digest, c, [Partition(r)]) == c.(reachable := r)
            && Run(digest, c.(reachable := r), rest)
            && End(digest, c.(reachable := r), rest) == End(digest, c, steps).(reachable := s)
  {
    var cut := c.(reachable := r);
    var rest := [Partition(c.reachable)] + steps + [Partition(s)];
    assert rest[1..] == steps + [Partition(s)] && rest[0] == Partition(c.reachable);
    assert Next(digest, cut, rest[0]) == c;
    RunSnoc(digest, c, steps, s);
    assert [Partition(r)][1..] == [];
  }

  lemma {:induction false} RunSnoc(digest: Digest, c: Cluster, steps: seq<Step>, s: set<nat>)
    requires Run(digest, c, steps)
    ensures Run(digest, c, steps + [Partition(s)])
    ensures End(digest, c, steps + [Partition(s)]) == End(digest, c, steps).(reachable := s)
    decreases steps
  {
    var all := steps + [Partition(s)];
    if steps == [] {
      assert all == [Partition(s)] && all[1..] == [];
    } else {
      assert all[1..] == steps[1..] + [Partition(s)];
      RunSnoc(digest, Next(digest, c, steps[0]), steps[1..], s);
    }
  }

  /** The harness's own change of voters, {1, 2, 3} to {2, 3, 4}, does not meet the condition: a commit
      by {1, 2} before it and a commit by {3, 4} after it share no node. */
  lemma HarnessChangeMayNotMeet(digest: Digest)
    ensures var c := INITIAL.(reachable := {1, 2});
            var steps := [EnterJoint({2, 3, 4}), Finalize, Partition({3, 4})];
            && Run(digest, c, steps) && CanCommit(c) && CanCommit(End(digest, c, steps))
            && c.reachable * End(digest, c, steps).reachable == {}
    ensures Quorum({1, 2, 3}) + Quorum({2, 3, 4}) == |{1, 2, 3} + {2, 3, 4}|
  {
    var c := INITIAL.(reachable := {1, 2});
    assert c.reachable * {1, 2, 3} == {1, 2};
    var joint := Next(digest, c, EnterJoint({2, 3, 4}));
    assert joint.reachable == {1, 2, 3, 4};
    assert joint.reachable * {1, 2, 3} == {1, 2, 3} && joint.reachable * {2, 3, 4} == {2, 3, 4};
    var final := Next(digest, joint, Finalize);
    assert {3, 4} * final.voters == {3, 4};
    var steps := [EnterJoint({2, 3, 4}), Finalize, Partition({3, 4})];
    assert steps[1..] == [Finalize, Partition({3, 4})];
    assert steps[1..][1..] == [Partition({3, 4})] && steps[1..][1..][1..] == [];
    assert {1, 2, 3} + {2, 3, 4} == {1, 2, 3, 4};
  }

  // ----- the model as the object it is

  class Model {
    const digest: Digest
    var term: nat
    var leader: nat
    var epoch: nat
    var voters: set<nat>
    var joint: Option<set<nat>>
    var reachable: set<nat>
    var log: seq<string>

    constructor (digest: Digest)
      ensures State() == INITIAL && this.digest == digest
    {
      this.digest := digest;
      term, leader, epoch := 1, 1, 1;
      voters, joint, reachable := {1, 2, 3}, None, {1, 2, 3};
      log := [];
    }

    function State(): Cluster
      reads this
    {
      Cluster(term, leader, epoch, voters, joint, reachable, log)
    }

    method Append(command: string) returns (accepted: bool)
      modifies this`log
      ensures accepted <==> CanCommit(old(State()))
      ensures State() == Next(digest, old(State()), Step.Append(command))
    {
      var primary := |reachable * voters| >= Quorum(voters);
      var able := if joint.None? then primary else primary && |reachable * joint.value| >= Quorum(joint.value);
      if !able {
        return false;
      }
      log := log + [digest(command, |log| + 1, term)];
      return true;
    }

    method Partition(nodes: set<nat>)
      modifies this`reachable
      ensures State() == Next(digest, old(State()), Step.Partition(nodes))
    {
      reachable := nodes;
    }

    /** Both halves of a membership change. Without a quorum in the joint configuration
        the change stops there and reports failure. */
    method ChangeMembership(group: set<nat>) returns (done: bool)
      requires joint.None?
      modifies this
      ensures var entered := Next(digest, old(State()), EnterJoint(group));
              && (done <==> CanCommit(entered))
              && State() == if done then Next(digest, entered, Finalize) else entered
    {
      joint, reachable, epoch := Some(group), reachable + group, epoch + 1;
      ghost var entered := State();
      if !CanCommit(State()) {
        return false;
      }
      QuorumInhabited(reachable, group);
      voters, joint := group, None;
      reachable := reachable * voters;
      epoch := epoch + 1;
      if leader !in voters {
        leader := LeastOf(voters);
        term := term + 1;
      }
      return true;
    }
  }

  /** `min(group)` by scanning. */
  method LeastOf(group: set<nat>) returns (m: nat)
    requires group != {}
    ensures m == Least(group)
  {
    m :| m in group;
    var rest := group - {m};
    while rest != {}
      invariant rest <= group && m in group && m !in rest
      invariant forall x | x in group && x !in rest :: m <= x
    {
      var x :| x in rest;
      rest := rest - {x};
      if x < m { m := x; }
    }
  }
}
