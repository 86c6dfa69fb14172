/**
  Following CNAME chains (`services/resolver/alias.go`; section 3.6.2 of RFC 1034).  Lookups are arbitrary
  functions of the hop they serve, so nothing is assumed of what zone and upstream servers answer.
 */
module Alias {
  import opened Wrappers
  import opened Strings
  import opened Pigeonhole
  import opened Domain

  datatype ChaseError = DepthExceeded | LoopDetected | TargetInvalid | QuestionBuild

  /** Records and whether the lookup found any; the number is the hop, as answers may change over time. */
  type ZoneLookup = (nat, Question) -> (seq<Record>, bool)

  /** `None` is an error of the upstream client. */
  type UpstreamLookup = (nat, Question) -> Option<seq<Record>>

  /** The collaborators, either of which may be missing. */
  datatype Lookups = Lookups(zone: Option<ZoneLookup>, upstream: Option<UpstreamLookup>) {
    function Authoritative(hop: nat, q: Question): (seq<Record>, bool) {
      match zone
      case None => ([], false)
      case Some(find) => find(hop, q)
    }

    function Upstream(hop: nat, q: Question): (seq<Record>, bool) {
      match upstream
      case None => ([], false)
      case Some(resolve) =>
        match resolve(hop, q)
        case None => ([], false)
        case Some(recs) => if recs == [] then ([], false) else (recs, true)
    }
  }

  predicate IsAlias(rrs: seq<Record>) {
    |rrs| > 0 && rrs[0].rtype == CNAME
  }

  predicate ShouldChase(q: Question, initial: seq<Record>) {
    IsAlias(initial) && q.qtype != CNAME
  }

  /** `resolveNext`: the zone for the asked type, then for a CNAME, then upstream. */
  function ResolveNext(l: Lookups, q: Question, hop: nat, nextQ: Question, target: Str): (seq<Record>, bool) {
    var (recs, found) := l.Authoritative(hop, nextQ);
    if found && recs != [] then (recs, true)
    else
      var cnameQ := if q.qtype != CNAME then NewQuestion(q.id, target, CNAME, q.qclass) else None;
      var (aliases, aliasFound) := if cnameQ.Some? then l.Authoritative(hop, cnameQ.value) else ([], false);
      if aliasFound && aliases != [] then (aliases, true) else l.Upstream(hop, nextQ)
  }

  /** What stands behind a CNAME record: another alias, the answer, or nothing. */
  datatype Behind = Next(records: seq<Record>) | Terminal(records: seq<Record>) | Nothing(error: Option<ChaseError>)

  function Follow(l: Lookups, q: Question, hop: nat, head: Record): Behind {
    var target := Trim(head.text, SPACES);
    if target == [] then Nothing(Some(TargetInvalid))
    else match NewQuestion(q.id, target, q.qtype, q.qclass)
      case None => Nothing(Some(QuestionBuild))
      case Some(nextQ) =>
        var (recs, found) := ResolveNext(l, q, hop, nextQ, target);
        if !found || recs == [] then Nothing(None)
        else if IsAlias(recs) then Next(recs)
        else Terminal(recs)
  }

  /** The question asked for the target of an alias: the client's, with the target for its name. */
  function TargetQuestion(q: Question, head: Record): Question {
    Question(q.id, Trim(head.text, SPACES), q.qtype, q.qclass)
  }

  /** These are the zones' records for a question, of which there are some. */
  predicate ZonesHave(l: Lookups, hop: nat, asked: Question, recs: seq<Record>) {
    l.zone.Some? && l.zone.value(hop, asked) == (recs, true) && recs != []
  }

  predicate ZonesHaveNone(l: Lookups, hop: nat, asked: Question) {
    l.zone.Some? ==> !l.zone.value(hop, asked).1 || l.zone.value(hop, asked).0 == []
  }

  /** Likewise for the upstream servers. */
  predicate UpstreamHas(l: Lookups, hop: nat, asked: Question, recs: seq<Record>) {
    l.upstream.Some? && l.upstream.value(hop, asked) == Some(recs) && recs != []
  }

  predicate UpstreamHasNone(l: Lookups, hop: nat, asked: Question) {
    l.upstream.Some? ==> l.upstream.value(hop, asked) == None || l.upstream.value(hop, asked) == Some([])
  }

  /**
    What the lookups have for a question: the zones' records of the asked type, or else the zones' alias, or else
    what the upstream servers say to the same question.
   */
  predicate Gives(l: Lookups, hop: nat, asked: Question, recs: seq<Record>) {
    || ZonesHave(l, hop, asked, recs)
    || (ZonesHaveNone(l, hop, asked) && ZonesHave(l, hop, asked.(qtype := 5), recs))
    || (&& ZonesHaveNone(l, hop, asked) && ZonesHaveNone(l, hop, asked.(qtype := 5))
        && (UpstreamHas(l, hop, asked, recs) || (UpstreamHasNone(l, hop, asked) && recs == [])))
  }

  /** What stands behind an alias, in terms of the lookups alone. */
  lemma FollowMeans(l: Lookups, q: Question, hop: nat, head: Record, recs: seq<Record>)
    requires q.qtype != 5 && Trim(head.text, SPACES) != [] && ValidType(q.qtype) && ValidClass(q.qclass)
    requires Gives(l, hop, TargetQuestion(q, head), recs)
    ensures Follow(l, q, hop, head) ==
            if recs == [] then Nothing(None) else if recs[0].rtype == 5 then Next(recs) else Terminal(recs)
  {
    var asked := TargetQuestion(q, head);
    assert NewQuestion(q.id, asked.name, 5, q.qclass) == Some(asked.(qtype := 5));
  }

  lemma FollowFails(l: Lookups, q: Question, hop: nat, head: Record)
    ensures Trim(head.text, SPACES) == [] ==> Follow(l, q, hop, head) == Nothing(Some(TargetInvalid))
    ensures Trim(head.text, SPACES) != [] && !(ValidType(q.qtype) && ValidClass(q.qclass)) ==>
              Follow(l, q, hop, head) == Nothing(Some(QuestionBuild))
  {
  }

  /** The zones have records behind this alias, of the asked type or another alias, or its target is no name. */
  predicate ZonesKnow(l: Lookups, q: Question, hop: nat, head: Record) {
    var asked := TargetQuestion(q, head);
    || asked.name == [] || !ValidType(q.qtype) || !ValidClass(q.qclass)
    || !ZonesHaveNone(l, hop, asked) || !ZonesHaveNone(l, hop, asked.(qtype := 5))
  }

  /** Two upstream clients say the same to the question for the target. */
  predicate UpstreamsAgree(l: Lookups, other: Option<UpstreamLookup>, q: Question, hop: nat, head: Record) {
    && l.upstream.Some? && other.Some?
    && l.upstream.value(hop, TargetQuestion(q, head)) == other.value(hop, TargetQuestion(q, head))
  }

  lemma FollowsAlike(l: Lookups, other: Option<UpstreamLookup>, q: Question, hop: nat, head: Record)
    requires (ZonesKnow(l, q, hop, head) || UpstreamsAgree(l, other, q, hop, head)) && q.qtype != CNAME
    ensures Follow(l, q, hop, head) == Follow(l.(upstream := other), q, hop, head)
  {
    var target := Trim(head.text, SPACES);
    var l' := l.(upstream := other);
    var nextQ := NewQuestion(q.id, target, q.qtype, q.qclass);
    if nextQ.Some? {
      assert NewQuestion(q.id, target, CNAME, q.qclass) == Some(nextQ.value.(qtype := CNAME));
      assert l'.Authoritative(hop, nextQ.value) == l.Authoritative(hop, nextQ.value);
      assert l'.Authoritative(hop, nextQ.value.(qtype := CNAME)) == l.Authoritative(hop, nextQ.value.(qtype := CNAME));
    }
  }

  function Owner(rr: Record): Str {
    Lower(rr.name)
  }

  /**
    What one hop does to chain, visited owners and current records.  The head joins the chain in every case; a
    guard's error comes before anything is looked up, and otherwise what stands behind the head decides.
   */
  predicate Stepped(l: Lookups, maxDepth: int, q: Question, hop: nat, head: Record, chain: seq<Record>,
                    visited: set<Str>,
                    done: bool, err: Option<ChaseError>, chain': seq<Record>, visited': set<Str>, current': seq<Record>)
  {
    if 0 < maxDepth < hop + 1 then done && err == Some(DepthExceeded) && chain' == chain + [head]
    else if Owner(head) in visited then done && err == Some(LoopDetected) && chain' == chain + [head]
    else
      && visited' == visited + {Owner(head)}
      && match Follow(l, q, hop, head)
         case Nothing(e) => done && err == e && chain' == chain + [head]
         case Terminal(rrs) => done && err == None && chain' == chain + [head] + rrs
         case Next(rrs) => !done && err == None && chain' == chain + [head] && current' == rrs
  }

  // ---------- The chaser ----------

  class ChaseState {
    const query: Question
    var chain: seq<Record>
    var visited: set<Str>
    var depth: int
    var current: seq<Record>

    constructor (q: Question, initial: seq<Record>)
      ensures query == q && chain == [] && visited == {} && depth == 0 && current == initial
    {
      query, chain, visited, depth, current := q, [], {}, 0, initial;
    }
  }

  class AliasChaser {
    const lookups: Lookups
    /** No limit if not positive. */
    const maxDepth: int

    constructor (lookups: Lookups, maxDepth: int)
      ensures this.lookups == lookups && this.maxDepth == maxDepth
    {
      this.lookups, this.maxDepth := lookups, maxDepth;
    }

    /** One more hop, unless that exceeds the limit. */
    method GuardDepth(st: ChaseState) returns (err: Option<ChaseError>)
      modifies st`depth
      ensures st.depth == old(st.depth) + 1
      ensures err == if 0 < maxDepth < st.depth then Some(DepthExceeded) else None
    {
      st.depth := st.depth + 1;
      if maxDepth > 0 && st.depth > maxDepth {
        return Some(DepthExceeded);
      }
      err := None;
    }

    /** Records the owner, unless it was seen before. */
    method GuardLoop(st: ChaseState, head: Record) returns (err: Option<ChaseError>)
      modifies st`visited
      ensures st.visited == old(st.visited) + {Owner(head)}
      ensures err == if Owner(head) in old(st.visited) then Some(LoopDetected) else None
    {
      var name := Lower(head.name);
      if name in st.visited {
        assert st.visited + {name} == st.visited;
        return Some(LoopDetected);
      }
      st.visited := st.visited + {name};
      err := None;
    }

    /**
      One hop.  The head joins the chain in every case; a guard's error ends the chase before anything is
      looked up, and otherwise what stands behind the head decides.
     */
    method Step(st: ChaseState, ghost hop: nat) returns (done: bool, err: Option<ChaseError>)
      requires IsAlias(st.current) && st.depth == hop
      modifies st
      ensures st.depth == old(st.depth) + 1
      ensures Stepped(lookups, maxDepth, st.query, hop, old(st.current[0]), old(st.chain), old(st.visited),
                      done, err, st.chain, st.visited, st.current)
    {
      var head := st.current[0];
      err := GuardDepth(st);
      if err.Some? {
        st.chain := st.chain + [head];
        return true, err;
      }
      err := GuardLoop(st, head);
      if err.Some? {
        st.chain := st.chain + [head];
        return true, err;
      }
      st.chain := st.chain + [head];
      var target := Trim(head.text, SPACES);
      if target == [] {
        return true, Some(TargetInvalid);
      }
      var nextQ := NewQuestion(st.query.id, target, st.query.qtype, st.query.qclass);
      if nextQ.None? {
        return true, Some(QuestionBuild);
      }
      var nextRecords, found := LookUp(st.query, st.depth - 1, nextQ.value, target);
      if !found || |nextRecords| == 0 {
        return true, None;
      }
      st.current := nextRecords;
      if !IsAlias(st.current) {
        st.chain := st.chain + st.current;
        return true, None;
      }
      return false, None;
    }

    method LookUp(q: Question, hop: int, nextQ: Question, target: Str) returns (recs: seq<Record>, found: bool)
      requires hop >= 0
      ensures (recs, found) == ResolveNext(lookups, q, hop, nextQ, target)
    {
      recs, found := lookups.Authoritative(hop, nextQ).0, lookups.Authoritative(hop, nextQ).1;
      if !found || |recs| == 0 {
        if q.qtype != CNAME {
          var cnameQ := NewQuestion(q.id, target, CNAME, q.qclass);
          if cnameQ.Some? {
            var aliases := lookups.Authoritative(hop, cnameQ.value);
            if aliases.1 && |aliases.0| > 0 {
              recs, found := aliases.0, true;
            }
          }
        }
        if !found || |recs| == 0 {
          var up := lookups.Upstream(hop, nextQ);
          recs, found := up.0, up.1;
        }
      }
    }

    /** One hop of the loop, in terms of the path. */
    method StepOnPath(q: Question, ghost initial: seq<Record>, st: ChaseState, ghost n: nat, ghost stop: nat)
      returns (done: bool, err: Option<ChaseError>)
      requires ShouldChase(q, initial) && st.query == q && IsAlias(st.current) && st.depth == n
      requires OnPath(lookups, q, initial, n, st.chain, st.visited, st.current)
      requires maxDepth > 0 ==> n <= maxDepth
      modifies st
      ensures done ==> Outcome(lookups, maxDepth, q, initial, st.chain, err)
      ensures !done ==>
                && IsAlias(st.current) && st.depth == n + 1 && |st.chain| == |old(st.chain)| + 1
                && OnPath(lookups, q, initial, n + 1, st.chain, st.visited, st.current)
                && (maxDepth > 0 ==> n + 1 <= maxDepth)
                && (StopsBy(lookups, q, initial, stop) ==> n + 1 <= stop)
    {
      assert IsAlias(initial) && q.qtype != CNAME;
      hide *;
      ghost var before, seen, here := st.chain, st.visited, st.current;
      done, err := Step(st, n);
      if done {
        ChaseEnds(lookups, maxDepth, q, initial, n, before, seen, here, st.chain, err, st.visited, st.current);
      } else {
        ChaseGoesOn(lookups, maxDepth, q, initial, n, before, seen, here, st.chain, err, st.visited, st.current, stop);
      }
    }

    /**
      The whole chase.  `stop` bounds it when there is no depth limit: the source's loop ends without one only
      if the path of aliases ends or comes back to an owner.
     */
    method Chase(q: Question, initial: seq<Record>, ghost stop: nat)
      returns (chain: seq<Record>, err: Option<ChaseError>)
      requires ShouldChase(q, initial) && maxDepth <= 0 ==> StopsBy(lookups, q, initial, stop)
      ensures Outcome(lookups, maxDepth, q, initial, chain, err)
    {
      if !ShouldChase(q, initial) {
        return initial, None;
      }
      var st := new ChaseState(q, initial);
      ghost var n: nat := 0;
      ChaseStarts(lookups, q, initial);
      assert IsAlias(st.current);
      hide *;
      while true
        invariant ShouldChase(q, initial) && st.query == q && IsAlias(st.current)
        invariant st.depth == n == |st.chain|
        invariant OnPath(lookups, q, initial, n, st.chain, st.visited, st.current)
        invariant if maxDepth > 0 then n <= maxDepth else n <= stop
        decreases (if maxDepth > 0 then maxDepth else stop) - n
      {
        var done, e := StepOnPath(q, initial, st, n, stop);
        if done {
          return st.chain, e;
        }
        n := n + 1;
      }
    }
  }

  // ---------- The path of aliases, without guards ----------

  /** The CNAME record met at hop `k`, if the path gets that far. */
  function HeadAt(l: Lookups, q: Question, initial: seq<Record>, k: nat): Option<Record>
    requires IsAlias(initial)
  {
    if k == 0 then Some(initial[0])
    else match HeadAt(l, q, initial, k - 1)
      case None => None
      case Some(head) =>
        match Follow(l, q, k - 1, head)
        case Next(rrs) => Some(rrs[0])
        case _ => None
  }

  /** The first `n` records of the path. */
  function Path(l: Lookups, q: Question, initial: seq<Record>, n: nat): (path: seq<Record>)
    requires IsAlias(initial) && (n > 0 ==> HeadAt(l, q, initial, n - 1).Some?)
    ensures |path| == n && forall i | 0 <= i < n :: HeadAt(l, q, initial, i) == Some(path[i])
  {
    if n == 0 then [] else Path(l, q, initial, n - 1) + [HeadAt(l, q, initial, n - 1).value]
  }

  function OwnersOf(rrs: seq<Record>): set<Str> {
    set i | 0 <= i < |rrs| :: Owner(rrs[i])
  }

  /** The owner at hop `k` was met before, in upper or lower case. */
  ghost predicate Repeats(l: Lookups, q: Question, initial: seq<Record>, k: nat)
    requires IsAlias(initial)
  {
    HeadAt(l, q, initial, k).Some? &&
    exists i: nat :: i < k && HeadAt(l, q, initial, i).Some? &&
                     Lower(HeadAt(l, q, initial, i).value.name) == Lower(HeadAt(l, q, initial, k).value.name)
  }

  ghost predicate NoRepeatBefore(l: Lookups, q: Question, initial: seq<Record>, n: nat)
    requires IsAlias(initial)
  {
    forall k: nat | k < n :: !Repeats(l, q, initial, k)
  }

  /** By hop `n` the path has ended or come back to an owner. */
  ghost predicate StopsBy(l: Lookups, q: Question, initial: seq<Record>, n: nat) {
    IsAlias(initial) && exists k: nat :: k <= n && (HeadAt(l, q, initial, k).None? || Repeats(l, q, initial, k))
  }

  /** A chase that ends at hop `n`: with which error, if any, and which records. */
  ghost predicate EndsAt(l: Lookups, maxDepth: int, q: Question, initial: seq<Record>, n: nat,
                         chain: seq<Record>, err: Option<ChaseError>)
    requires IsAlias(initial)
  {
    && HeadAt(l, q, initial, n).Some?
    && NoRepeatBefore(l, q, initial, n)
    && (maxDepth > 0 ==> n <= maxDepth)
    && var path := Path(l, q, initial, n + 1);
       if maxDepth > 0 && n == maxDepth then chain == path && err == Some(DepthExceeded)
       else if Repeats(l, q, initial, n) then chain == path && err == Some(LoopDetected)
       else match Follow(l, q, n, path[n])
         case Next(_) => false
         case Terminal(rrs) => chain == path + rrs && err == None
         case Nothing(e) => chain == path && err == e
  }

  ghost predicate Outcome(l: Lookups, maxDepth: int, q: Question, initial: seq<Record>,
                          chain: seq<Record>, err: Option<ChaseError>)
  {
    if !ShouldChase(q, initial) then chain == initial && err == None
    else exists n: nat :: EndsAt(l, maxDepth, q, initial, n, chain, err)
  }

  lemma {:induction false} PathIsClosed(l: Lookups, q: Question, initial: seq<Record>, k: nat, n: nat)
    requires IsAlias(initial) && k <= n && HeadAt(l, q, initial, n).Some?
    ensures HeadAt(l, q, initial, k).Some?
    decreases n
  {
    if k < n {
      PathIsClosed(l, q, initial, k, n - 1);
    }
  }

  lemma PathOwners(l: Lookups, q: Question, initial: seq<Record>, n: nat)
    requires IsAlias(initial) && HeadAt(l, q, initial, n).Some?
    ensures n > 0 ==> HeadAt(l, q, initial, n - 1).Some?
    ensures Repeats(l, q, initial, n) <==> Owner(HeadAt(l, q, initial, n).value) in OwnersOf(Path(l, q, initial, n))
  {
  }

  lemma PathMore(l: Lookups, q: Question, initial: seq<Record>, n: nat)
    requires IsAlias(initial) && HeadAt(l, q, initial, n).Some?
    ensures n > 0 ==> HeadAt(l, q, initial, n - 1).Some?
    ensures var head := HeadAt(l, q, initial, n).value;
            && Path(l, q, initial, n + 1) == Path(l, q, initial, n) + [head]
            && OwnersOf(Path(l, q, initial, n + 1)) == OwnersOf(Path(l, q, initial, n)) + {Owner(head)}
  {
    OwnersOfMore(Path(l, q, initial, n), HeadAt(l, q, initial, n).value);
  }

  lemma OwnersOfMore(rrs: seq<Record>, rr: Record)
    ensures OwnersOf(rrs + [rr]) == OwnersOf(rrs) + {Owner(rr)}
  {
    var more := rrs + [rr];
    forall o ensures o in OwnersOf(more) <==> o in OwnersOf(rrs) + {Owner(rr)} {
      if o in OwnersOf(rrs) {
        var i :| 0 <= i < |rrs| && Owner(rrs[i]) == o;
        assert more[i] == rrs[i];
      }
      assert more[|rrs|] == rr;
    }
  }

  lemma PathGoesOn(l: Lookups, q: Question, initial: seq<Record>, n: nat, head: Record, stop: nat)
    requires IsAlias(initial) && HeadAt(l, q, initial, n) == Some(head) && Follow(l, q, n, head).Next?
    requires NoRepeatBefore(l, q, initial, n) && !Repeats(l, q, initial, n)
    ensures HeadAt(l, q, initial, n + 1) == Some(Follow(l, q, n, head).records[0])
    ensures NoRepeatBefore(l, q, initial, n + 1)
    ensures StopsBy(l, q, initial, stop) ==> n + 1 <= stop
  {
    if StopsBy(l, q, initial, stop) {
      var k: nat :| k <= stop && (HeadAt(l, q, initial, k).None? || Repeats(l, q, initial, k));
      if k <= n {
        PathIsClosed(l, q, initial, k, n);
      }
    }
  }

  /** What the chaser's state says at hop `n`: where it stands on the path and that no owner came twice. */
  ghost predicate OnPath(l: Lookups, q: Question, initial: seq<Record>, n: nat,
                         chain: seq<Record>, visited: set<Str>, current: seq<Record>)
  {
    && IsAlias(initial) && IsAlias(current) && HeadAt(l, q, initial, n) == Some(current[0])
    && NoRepeatBefore(l, q, initial, n)
    && (n > 0 ==> HeadAt(l, q, initial, n - 1).Some?)
    && chain == Path(l, q, initial, n) && visited == OwnersOf(chain)
  }

  lemma ChaseStarts(l: Lookups, q: Question, initial: seq<Record>)
    requires IsAlias(initial)
    ensures OnPath(l, q, initial, 0, [], {}, initial)
  {
  }

  lemma ChaseEnds(l: Lookups, maxDepth: int, q: Question, initial: seq<Record>, n: nat,
                  chain: seq<Record>, visited: set<Str>, current: seq<Record>,
                  chain': seq<Record>, err: Option<ChaseError>, visited': set<Str>, current': seq<Record>)
    requires IsAlias(initial) && IsAlias(current) && OnPath(l, q, initial, n, chain, visited, current)
    requires maxDepth > 0 ==> n <= maxDepth
    requires Stepped(l, maxDepth, q, n, current[0], chain, visited, true, err, chain', visited', current')
    ensures EndsAt(l, maxDepth, q, initial, n, chain', err)
    ensures q.qtype != CNAME ==> Outcome(l, maxDepth, q, initial, chain', err)
  {
    PathOwners(l, q, initial, n);
    PathMore(l, q, initial, n);
    assert EndsAt(l, maxDepth, q, initial, n, chain', err);
  }

  lemma ChaseGoesOn(l: Lookups, maxDepth: int, q: Question, initial: seq<Record>, n: nat,
                    chain: seq<Record>, visited: set<Str>, current: seq<Record>,
                    chain': seq<Record>, err: Option<ChaseError>, visited': set<Str>, current': seq<Record>, stop: nat)
    requires IsAlias(initial) && IsAlias(current) && OnPath(l, q, initial, n, chain, visited, current)
    requires Stepped(l, maxDepth, q, n, current[0], chain, visited, false, err, chain', visited', current')
    ensures IsAlias(current') && OnPath(l, q, initial, n + 1, chain', visited', current')
    ensures !(0 < maxDepth < n + 1) && |visited'| == |visited| + 1 && |chain'| == |chain| + 1
    ensures StopsBy(l, q, initial, stop) ==> n + 1 <= stop
  {
    PathOwners(l, q, initial, n);
    PathMore(l, q, initial, n);
    PathGoesOn(l, q, initial, n, current[0], stop);
  }

  // ---------- What the outcome means ----------

  /** A path of aliases, step by step: each record's target leads to records that begin with the next one. */
  predicate IsAliasPath(l: Lookups, q: Question, initial: seq<Record>, hops: seq<Record>)
    requires IsAlias(initial)
  {
    hops != [] &&
    var last := |hops| - 1;
    if last == 0 then hops[0] == initial[0]
    else IsAliasPath(l, q, initial, hops[..last]) && LeadsTo(l, q, last - 1, hops[last - 1], hops[last])
  }

  predicate LeadsTo(l: Lookups, q: Question, hop: nat, head: Record, next: Record) {
    Follow(l, q, hop, head).Next? && Follow(l, q, hop, head).records[0] == next
  }

  predicate AllAliases(rrs: seq<Record>) {
    forall i | 0 <= i < |rrs| :: rrs[i].rtype == CNAME
  }

  /** There is only one path of each length. */
  lemma {:induction false} PathIsUnique(l: Lookups, q: Question, initial: seq<Record>, hops: seq<Record>)
    requires IsAlias(initial) && IsAliasPath(l, q, initial, hops)
    ensures HeadAt(l, q, initial, |hops| - 1) == Some(hops[|hops| - 1])
    ensures hops == Path(l, q, initial, |hops|)
    decreases |hops|
  {
    if |hops| > 1 {
      var before := hops[..|hops| - 1];
      PathIsUnique(l, q, initial, before);
      assert hops == before + [hops[|hops| - 1]];
    }
  }

  lemma {:induction false} PathIsAliasPath(l: Lookups, q: Question, initial: seq<Record>, n: nat)
    requires IsAlias(initial) && HeadAt(l, q, initial, n).Some?
    ensures IsAliasPath(l, q, initial, Path(l, q, initial, n + 1))
    ensures AllAliases(Path(l, q, initial, n + 1))
  {
    var path := Path(l, q, initial, n + 1);
    forall i | 0 <= i < |path| ensures path[i].rtype == CNAME {
      HeadIsAlias(l, q, initial, i, n);
    }
    PathIsPath(l, q, initial, n);
  }

  lemma HeadIsAlias(l: Lookups, q: Question, initial: seq<Record>, k: nat, n: nat)
    requires IsAlias(initial) && k <= n && HeadAt(l, q, initial, n).Some?
    ensures HeadAt(l, q, initial, k).Some? && HeadAt(l, q, initial, k).value.rtype == CNAME
  {
    PathIsClosed(l, q, initial, k, n);
  }

  lemma {:induction false} PathIsPath(l: Lookups, q: Question, initial: seq<Record>, n: nat)
    requires IsAlias(initial) && HeadAt(l, q, initial, n).Some?
    ensures IsAliasPath(l, q, initial, Path(l, q, initial, n + 1))
  {
    hide *;
    if n > 0 {
      HeadLeadsOn(l, q, initial, n);
      PathIsPath(l, q, initial, n - 1);
      PathMore(l, q, initial, n);
      PathSnoc(l, q, initial, Path(l, q, initial, n), HeadAt(l, q, initial, n).value);
    } else {
      PathStarts(l, q, initial);
    }
  }

  lemma PathStarts(l: Lookups, q: Question, initial: seq<Record>)
    requires IsAlias(initial)
    ensures HeadAt(l, q, initial, 0) == Some(initial[0])
    ensures IsAliasPath(l, q, initial, Path(l, q, initial, 1))
  {
    assert Path(l, q, initial, 1) == [initial[0]];
  }

  lemma HeadLeadsOn(l: Lookups, q: Question, initial: seq<Record>, n: nat)
    requires IsAlias(initial) && n > 0 && HeadAt(l, q, initial, n).Some?
    ensures HeadAt(l, q, initial, n - 1).Some?
    ensures LeadsTo(l, q, n - 1, Path(l, q, initial, n)[n - 1], HeadAt(l, q, initial, n).value)
  {
    assert Some(Path(l, q, initial, n)[n - 1]) == HeadAt(l, q, initial, n - 1);
  }

  lemma PathSnoc(l: Lookups, q: Question, initial: seq<Record>, hops: seq<Record>, next: Record)
    requires IsAlias(initial) && IsAliasPath(l, q, initial, hops)
    requires LeadsTo(l, q, |hops| - 1, hops[|hops| - 1], next)
    ensures IsAliasPath(l, q, initial, hops + [next])
  {
    assert (hops + [next])[..|hops|] == hops;
  }

  /** The owners met before hop `n` are distinct if none of them repeats. */
  lemma DistinctOwners(l: Lookups, q: Question, initial: seq<Record>, n: nat)
    requires IsAlias(initial) && NoRepeatBefore(l, q, initial, n)
    requires n > 0 ==> HeadAt(l, q, initial, n - 1).Some?
    ensures var path := Path(l, q, initial, n);
            forall i, j | 0 <= i < j < n :: Owner(path[i]) != Owner(path[j])
  {
    var path := Path(l, q, initial, n);
    forall i, j | 0 <= i < j < n ensures Owner(path[i]) != Owner(path[j]) {
      assert !Repeats(l, q, initial, j);
      assert HeadAt(l, q, initial, i) == Some(path[i]) && HeadAt(l, q, initial, j) == Some(path[j]);
    }
  }

  /**
    At every loop head: one record in the chain and one owner visited a hop, all of them CNAMEs with distinct
    owners, and a CNAME at hand.
   */
  lemma LoopHead(l: Lookups, q: Question, initial: seq<Record>, n: nat, chain: seq<Record>, visited: set<Str>,
                 current: seq<Record>)
    requires OnPath(l, q, initial, n, chain, visited, current)
    ensures |chain| == |visited| == n && current[0].rtype == CNAME
    ensures AllAliases(chain) && visited == OwnersOf(chain)
    ensures forall i, j | 0 <= i < j < n :: Owner(chain[i]) != Owner(chain[j])
    ensures IsAliasPath(l, q, initial, chain + [current[0]])
  {
    DistinctOwners(l, q, initial, n);
    PathIsAliasPath(l, q, initial, n);
    PathMore(l, q, initial, n);
    OwnersCount(chain);
  }

  lemma {:induction false} OwnersCount(rrs: seq<Record>)
    requires forall i, j | 0 <= i < j < |rrs| :: Owner(rrs[i]) != Owner(rrs[j])
    ensures |OwnersOf(rrs)| == |rrs|
  {
    if rrs != [] {
      var last := rrs[|rrs| - 1];
      var before := rrs[..|rrs| - 1];
      OwnersCount(before);
      assert rrs == before + [last];
      OwnersOfMore(before, last);
    }
  }

  lemma EndIsUnique(l: Lookups, maxDepth: int, q: Question, initial: seq<Record>, n: nat, n': nat,
                    chain: seq<Record>, err: Option<ChaseError>, chain': seq<Record>, err': Option<ChaseError>)
    requires IsAlias(initial)
    requires EndsAt(l, maxDepth, q, initial, n, chain, err) && EndsAt(l, maxDepth, q, initial, n', chain', err')
    ensures n <= n'
  {
    hide HeadAt, Follow, Repeats;
    PathIsClosed(l, q, initial, if n' < n then n' + 1 else n, n);
    WhyItEnds(l, maxDepth, q, initial, n', chain', err');
  }

  lemma WhyItEnds(l: Lookups, maxDepth: int, q: Question, initial: seq<Record>, n: nat,
                  chain: seq<Record>, err: Option<ChaseError>)
    requires IsAlias(initial) && EndsAt(l, maxDepth, q, initial, n, chain, err)
    ensures (maxDepth > 0 && n == maxDepth) || Repeats(l, q, initial, n) || HeadAt(l, q, initial, n + 1).None?
  {
    hide Follow, Repeats, NoRepeatBefore;
    assert HeadAt(l, q, initial, n) == Some(Path(l, q, initial, n + 1)[n]);
  }

  lemma SameEnd(l: Lookups, maxDepth: int, q: Question, initial: seq<Record>, n: nat,
                chain: seq<Record>, err: Option<ChaseError>, chain': seq<Record>, err': Option<ChaseError>)
    requires IsAlias(initial)
    requires EndsAt(l, maxDepth, q, initial, n, chain, err) && EndsAt(l, maxDepth, q, initial, n, chain', err')
    ensures chain == chain' && err == err'
  {
    hide Follow, HeadAt, Repeats, NoRepeatBefore;
  }

  /** The outcome is a function of lookups, limit, question and first records. */
  lemma OutcomeIsUnique(l: Lookups, maxDepth: int, q: Question, initial: seq<Record>,
                        chain: seq<Record>, err: Option<ChaseError>, chain': seq<Record>, err': Option<ChaseError>)
    requires Outcome(l, maxDepth, q, initial, chain, err) && Outcome(l, maxDepth, q, initial, chain', err')
    ensures chain == chain' && err == err'
  {
    if ShouldChase(q, initial) {
      hide EndsAt;
      var n: nat :| EndsAt(l, maxDepth, q, initial, n, chain, err);
      var n': nat :| EndsAt(l, maxDepth, q, initial, n', chain', err');
      EndIsUnique(l, maxDepth, q, initial, n, n', chain, err, chain', err');
      EndIsUnique(l, maxDepth, q, initial, n', n, chain', err', chain, err);
      SameEnd(l, maxDepth, q, initial, n, chain, err, chain', err');
    }
  }

  /** The depth error comes exactly when the path has more aliases than the limit and the first ones do not repeat. */
  lemma DepthErrorExactly(l: Lookups, maxDepth: int, q: Question, initial: seq<Record>, chain: seq<Record>,
                          err: Option<ChaseError>)
    requires ShouldChase(q, initial) && Outcome(l, maxDepth, q, initial, chain, err)
    ensures err == Some(DepthExceeded) <==>
            maxDepth > 0 && HeadAt(l, q, initial, maxDepth).Some? && NoRepeatBefore(l, q, initial, maxDepth)
    ensures err == Some(DepthExceeded) ==> |chain| == maxDepth + 1
  {
    hide Follow, HeadAt, Repeats, NoRepeatBefore;
    var n: nat :| EndsAt(l, maxDepth, q, initial, n, chain, err);
    FollowErrors(l, q, n, HeadAt(l, q, initial, n).value);
    if maxDepth > 0 && HeadAt(l, q, initial, maxDepth).Some? && NoRepeatBefore(l, q, initial, maxDepth) {
      var path := Path(l, q, initial, maxDepth + 1);
      EndIsUnique(l, maxDepth, q, initial, maxDepth, n, path, Some(DepthExceeded), chain, err);
    }
  }

  /** Hop `k` is the first to come back to an owner. */
  ghost predicate FirstRepeat(l: Lookups, q: Question, initial: seq<Record>, k: nat)
    requires IsAlias(initial)
  {
    Repeats(l, q, initial, k) && NoRepeatBefore(l, q, initial, k)
  }

  /** The loop error comes exactly when the path comes back to an owner within the limit; the depth error wins a tie. */
  lemma LoopErrorExactly(l: Lookups, maxDepth: int, q: Question, initial: seq<Record>, chain: seq<Record>,
                         err: Option<ChaseError>)
    requires ShouldChase(q, initial) && Outcome(l, maxDepth, q, initial, chain, err)
    ensures err == Some(LoopDetected) <==>
            exists k: nat :: FirstRepeat(l, q, initial, k) && (maxDepth <= 0 || k + 1 <= maxDepth)
    ensures err == Some(LoopDetected) ==> LastComesBack(chain)
  {
    hide Follow, HeadAt;
    var n: nat :| EndsAt(l, maxDepth, q, initial, n, chain, err);
    FollowErrors(l, q, n, HeadAt(l, q, initial, n).value);
    if err == Some(LoopDetected) {
      assert FirstRepeat(l, q, initial, n);
      LastOwnerRepeats(l, q, initial, n);
    }
    if k: nat :| FirstRepeat(l, q, initial, k) && (maxDepth <= 0 || k + 1 <= maxDepth) {
      LoopOutcome(l, maxDepth, q, initial, n, k, chain, err);
    }
  }

  lemma FollowErrors(l: Lookups, q: Question, hop: nat, head: Record)
    ensures Follow(l, q, hop, head).Nothing? ==>
              && Follow(l, q, hop, head).error != Some(DepthExceeded)
              && Follow(l, q, hop, head).error != Some(LoopDetected)
  {
  }

  /** The last owner is an earlier one. */
  predicate LastComesBack(chain: seq<Record>) {
    exists i :: 0 <= i < |chain| - 1 && Owner(chain[i]) == Owner(chain[|chain| - 1])
  }

  lemma LastOwnerRepeats(l: Lookups, q: Question, initial: seq<Record>, n: nat)
    requires IsAlias(initial) && Repeats(l, q, initial, n)
    ensures LastComesBack(Path(l, q, initial, n + 1))
  {
    var path := Path(l, q, initial, n + 1);
    var i: nat :| i < n && HeadAt(l, q, initial, i).Some? &&
                  Lower(HeadAt(l, q, initial, i).value.name) == Lower(HeadAt(l, q, initial, n).value.name);
    assert HeadAt(l, q, initial, i) == Some(path[i]) && HeadAt(l, q, initial, n) == Some(path[n]);
    assert Owner(path[i]) == Owner(path[n]);
  }

  lemma LoopOutcome(l: Lookups, maxDepth: int, q: Question, initial: seq<Record>, n: nat, k: nat,
                    chain: seq<Record>, err: Option<ChaseError>)
    requires IsAlias(initial) && EndsAt(l, maxDepth, q, initial, n, chain, err)
    requires FirstRepeat(l, q, initial, k) && (maxDepth <= 0 || k + 1 <= maxDepth)
    ensures n == k && err == Some(LoopDetected)
  {
    var path := Path(l, q, initial, k + 1);
    EndIsUnique(l, maxDepth, q, initial, k, n, path, Some(LoopDetected), chain, err);
    EndIsUnique(l, maxDepth, q, initial, n, k, chain, err, path, Some(LoopDetected));
  }

  /** Where the path ends, if it does: the alias behind which there is no other. */
  ghost predicate PathEndsAt(l: Lookups, q: Question, initial: seq<Record>, n: nat)
    requires IsAlias(initial)
  {
    HeadAt(l, q, initial, n).Some? && HeadAt(l, q, initial, n + 1).None?
  }

  /**
    In all other cases the chase returns the hops of the whole path and whatever stands behind its last alias.
   */
  lemma WholePathOtherwise(l: Lookups, maxDepth: int, q: Question, initial: seq<Record>, chain: seq<Record>,
                           err: Option<ChaseError>)
    requires ShouldChase(q, initial) && Outcome(l, maxDepth, q, initial, chain, err)
    requires err != Some(DepthExceeded) && err != Some(LoopDetected)
    ensures exists n: nat :: PathEndsAt(l, q, initial, n) &&
              var path := Path(l, q, initial, n + 1);
              && IsAliasPath(l, q, initial, path)
              && match Follow(l, q, n, path[n])
                 case Terminal(rrs) => chain == path + rrs && err == None
                 case Nothing(e) => chain == path && err == e
                 case Next(_) => false
  {
    var n: nat :| EndsAt(l, maxDepth, q, initial, n, chain, err);
    var path := Path(l, q, initial, n + 1);
    assert HeadAt(l, q, initial, n) == Some(path[n]);
    PathIsAliasPath(l, q, initial, n);
    assert PathEndsAt(l, q, initial, n);
  }

  /** Raising the limit changes nothing for a chase that was not stopped by it. */
  lemma RaisingTheLimit(l: Lookups, d: int, d': int, q: Question, initial: seq<Record>, chain: seq<Record>,
                        err: Option<ChaseError>)
    requires 0 < d && (d <= d' || d' <= 0)
    requires Outcome(l, d, q, initial, chain, err) && err != Some(DepthExceeded)
    ensures Outcome(l, d', q, initial, chain, err)
  {
    if ShouldChase(q, initial) {
      var n: nat :| EndsAt(l, d, q, initial, n, chain, err);
      assert EndsAt(l, d', q, initial, n, chain, err);
    }
  }

  predicate DistinctOwnersIn(rrs: seq<Record>) {
    forall i, j | 0 <= i < j < |rrs| :: Owner(rrs[i]) != Owner(rrs[j])
  }

  /** Every path of aliases is within the limit, if there is one, and meets no owner twice. */
  ghost predicate PathsFit(l: Lookups, maxDepth: int, q: Question, initial: seq<Record>)
    requires IsAlias(initial)
  {
    forall hops | IsAliasPath(l, q, initial, hops) :: (maxDepth > 0 ==> |hops| <= maxDepth) && DistinctOwnersIn(hops)
  }

  /** Neither guard fires exactly if all paths of aliases fit. */
  lemma NoErrorExactly(l: Lookups, maxDepth: int, q: Question, initial: seq<Record>,
                       chain: seq<Record>, err: Option<ChaseError>)
    requires ShouldChase(q, initial) && Outcome(l, maxDepth, q, initial, chain, err)
    ensures err != Some(DepthExceeded) && err != Some(LoopDetected) <==> PathsFit(l, maxDepth, q, initial)
  {
    hide Follow, HeadAt, Repeats, NoRepeatBefore, IsAliasPath;
    var n: nat :| EndsAt(l, maxDepth, q, initial, n, chain, err);
    if err != Some(DepthExceeded) && err != Some(LoopDetected) {
      EndedPathsFit(l, maxDepth, q, initial, n, chain, err);
    } else {
      var path := Path(l, q, initial, n + 1);
      PathIsPath(l, q, initial, n);
      if err == Some(LoopDetected) {
        FollowErrors(l, q, n, path[n]);
        LastOwnerRepeats(l, q, initial, n);
      } else {
        FollowErrors(l, q, n, path[n]);
        assert |path| > maxDepth > 0;
      }
    }
  }

  lemma EndedPathsFit(l: Lookups, maxDepth: int, q: Question, initial: seq<Record>, n: nat,
                      chain: seq<Record>, err: Option<ChaseError>)
    requires IsAlias(initial) && EndsAt(l, maxDepth, q, initial, n, chain, err)
    requires err != Some(DepthExceeded) && err != Some(LoopDetected)
    ensures PathsFit(l, maxDepth, q, initial)
  {
    hide IsAliasPath;
    forall hops | IsAliasPath(l, q, initial, hops)
      ensures (maxDepth > 0 ==> |hops| <= maxDepth) && DistinctOwnersIn(hops)
    {
      IsAliasPathHops(l, q, initial, hops);
      PathIsUnique(l, q, initial, hops);
      if |hops| > n + 1 {
        PathIsClosed(l, q, initial, n + 1, |hops| - 1);
        assert HeadAt(l, q, initial, n + 1).None?;
        assert false;
      }
      DistinctOwners(l, q, initial, |hops|);
    }
  }

  lemma IsAliasPathHops(l: Lookups, q: Question, initial: seq<Record>, hops: seq<Record>)
    requires IsAlias(initial) && IsAliasPath(l, q, initial, hops)
    ensures hops != []
  {
  }

  /**
    An alias graph without cycles: these records lead only to each other, or out of the aliases, and along every
    alias a measure of the owner falls.
   */
  ghost predicate Acyclic(l: Lookups, q: Question, graph: set<Record>, rank: Str -> nat) {
    forall hop: nat, head | head in graph && Follow(l, q, hop, head).Next? ::
      var next := Follow(l, q, hop, head).records[0];
      next in graph && rank(Owner(next)) < rank(Owner(head))
  }

  lemma {:induction false} RankFalls(l: Lookups, q: Question, initial: seq<Record>, graph: set<Record>,
                                     rank: Str -> nat, hops: seq<Record>)
    requires IsAlias(initial) && initial[0] in graph && Acyclic(l, q, graph, rank)
    requires IsAliasPath(l, q, initial, hops)
    ensures hops != [] && hops[|hops| - 1] in graph
    ensures forall i | 0 <= i < |hops| - 1 :: rank(Owner(hops[|hops| - 1])) < rank(Owner(hops[i]))
    ensures rank(Owner(hops[|hops| - 1])) + |hops| - 1 <= rank(Owner(initial[0]))
    ensures DistinctOwnersIn(hops)
    decreases |hops|
  {
    if |hops| > 1 {
      RankFalls(l, q, initial, graph, rank, hops[..|hops| - 1]);
    }
  }

  /**
    In an acyclic alias graph whose longest path from the first record has no more aliases than the limit, neither
    guard ever fires.
   */
  lemma AcyclicNeverFails(l: Lookups, maxDepth: int, q: Question, initial: seq<Record>, graph: set<Record>,
                          rank: Str -> nat, chain: seq<Record>, err: Option<ChaseError>)
    requires Outcome(l, maxDepth, q, initial, chain, err) && Acyclic(l, q, graph, rank)
    requires IsAlias(initial) ==> initial[0] in graph && (maxDepth > 0 ==> rank(Owner(initial[0])) < maxDepth)
    ensures err != Some(DepthExceeded) && err != Some(LoopDetected)
  {
    if ShouldChase(q, initial) {
      hide Follow, HeadAt, IsAliasPath, Acyclic;
      forall hops | IsAliasPath(l, q, initial, hops)
        ensures (maxDepth > 0 ==> |hops| <= maxDepth) && DistinctOwnersIn(hops)
      {
        RankFalls(l, q, initial, graph, rank, hops);
      }
      NoErrorExactly(l, maxDepth, q, initial, chain, err);
    }
  }

  function Link(owner: Str, target: Str): Record {
    Record(owner, CNAME, 1, 60, None, [], target)
  }

  /** The zone of the aliases from `a` to `b`, `b` to `c` and `c` to `d`, and an address of `d`. */
  function ThreeLinks(hop: nat, q: Question): (seq<Record>, bool) {
    if q.name == [98] then ([Link([98], [99])], true)
    else if q.name == [99] then ([Link([99], [100])], true)
    else if q.name == [100] then ([Link([100], [49]).(rtype := 1)], true)
    else ([], false)
  }

  const LINKS := Lookups(Some(ThreeLinks), None)
  const ADDRESS_OF_A := Question(0, [97], 1, 1)
  const LINK_A := Link([97], [98])
  const LINK_B := Link([98], [99])
  const LINK_C := Link([99], [100])
  const ADDRESS_OF_D := Link([100], [49]).(rtype := 1)

  function LinksLeft(owner: Str): nat {
    if owner == [97] then 2 else if owner == [98] then 1 else 0
  }

  /** Such a graph: three aliases in a row, followed to the address within a limit of three but not of two. */
  lemma ThreeAliases()
    ensures Acyclic(LINKS, ADDRESS_OF_A, {LINK_A, LINK_B, LINK_C}, LinksLeft) && LinksLeft(Owner(LINK_A)) < 3
    ensures IsAliasPath(LINKS, ADDRESS_OF_A, [LINK_A], [LINK_A, LINK_B, LINK_C])
    ensures Outcome(LINKS, 3, ADDRESS_OF_A, [LINK_A], [LINK_A, LINK_B, LINK_C, ADDRESS_OF_D], None)
    ensures Outcome(LINKS, 2, ADDRESS_OF_A, [LINK_A], [LINK_A, LINK_B, LINK_C], Some(DepthExceeded))
  {
    hide Follow, HeadAt, IsAliasPath, Repeats;
    LinksLead();
    var l, q, hops := LINKS, ADDRESS_OF_A, [LINK_A, LINK_B, LINK_C];
    ThreeHops();
    PathIsUnique(l, q, [LINK_A], hops);
    assert !Repeats(l, q, [LINK_A], 0) && !Repeats(l, q, [LINK_A], 1) && !Repeats(l, q, [LINK_A], 2) by {
      DistinctNeverRepeats(l, q, [LINK_A], hops);
    }
    assert EndsAt(l, 3, q, [LINK_A], 2, hops + [ADDRESS_OF_D], None);
    assert EndsAt(l, 2, q, [LINK_A], 2, hops, Some(DepthExceeded));
    assert hops + [ADDRESS_OF_D] == [LINK_A, LINK_B, LINK_C, ADDRESS_OF_D];
  }

  lemma LinksLead()
    ensures forall hop: nat :: Follow(LINKS, ADDRESS_OF_A, hop, LINK_A) == Next([LINK_B])
    ensures forall hop: nat :: Follow(LINKS, ADDRESS_OF_A, hop, LINK_B) == Next([LINK_C])
    ensures forall hop: nat :: Follow(LINKS, ADDRESS_OF_A, hop, LINK_C) == Terminal([ADDRESS_OF_D])
    ensures Owner(LINK_A) == [97] && Owner(LINK_B) == [98] && Owner(LINK_C) == [99]
  {
    forall hop: nat
      ensures Follow(LINKS, ADDRESS_OF_A, hop, LINK_A) == Next([LINK_B])
      ensures Follow(LINKS, ADDRESS_OF_A, hop, LINK_B) == Next([LINK_C])
      ensures Follow(LINKS, ADDRESS_OF_A, hop, LINK_C) == Terminal([ADDRESS_OF_D])
    {
      LinkLeads(hop, [97], [98]);
      LinkLeads(hop, [98], [99]);
      LinkLeads(hop, [99], [100]);
    }
  }

  lemma LinkLeads(hop: nat, owner: Str, target: Str)
    requires target == [98] || target == [99] || target == [100]
    ensures var found := ThreeLinks(hop, ADDRESS_OF_A.(name := target)).0;
            Follow(LINKS, ADDRESS_OF_A, hop, Link(owner, target)) ==
            if target == [100] then Terminal(found) else Next(found)
  {
    assert Trim(target, SPACES) == target by {
      TrimSpec(target, SPACES);
    }
  }

  lemma ThreeHops()
    ensures IsAliasPath(LINKS, ADDRESS_OF_A, [LINK_A], [LINK_A, LINK_B, LINK_C])
  {
    hide Follow;
    LinksLead();
    assert IsAliasPath(LINKS, ADDRESS_OF_A, [LINK_A], [LINK_A]);
    PathSnoc(LINKS, ADDRESS_OF_A, [LINK_A], [LINK_A], LINK_B);
    PathSnoc(LINKS, ADDRESS_OF_A, [LINK_A], [LINK_A, LINK_B], LINK_C);
    assert [LINK_A] + [LINK_B] == [LINK_A, LINK_B] && [LINK_A, LINK_B] + [LINK_C] == [LINK_A, LINK_B, LINK_C];
  }

  /** Along a path of distinct owners nothing repeats. */
  lemma DistinctNeverRepeats(l: Lookups, q: Question, initial: seq<Record>, hops: seq<Record>)
    requires IsAlias(initial) && IsAliasPath(l, q, initial, hops) && DistinctOwnersIn(hops)
    ensures forall k: nat | k < |hops| :: !Repeats(l, q, initial, k)
  {
    PathIsUnique(l, q, initial, hops);
  }

  predicate IsGuardError(err: Option<ChaseError>) {
    err == Some(DepthExceeded) || err == Some(LoopDetected)
  }

  /** Behind every alias of the path that a chase with this chain and error followed, upstream is as good as `other`. */
  ghost predicate AgreeOnPath(l: Lookups, other: Option<UpstreamLookup>, q: Question, initial: seq<Record>,
                              chain: seq<Record>, err: Option<ChaseError>)
    requires IsAlias(initial)
  {
    forall k: nat | k < |chain| && (k + 1 < |chain| || !IsGuardError(err)) && HeadAt(l, q, initial, k).Some? ::
      || ZonesKnow(l, q, k, HeadAt(l, q, initial, k).value)
      || UpstreamsAgree(l, other, q, k, HeadAt(l, q, initial, k).value)
  }

  /** The zones have records behind every alias of the path that a chase with this chain and error followed. */
  ghost predicate ZonesKnowPath(l: Lookups, q: Question, initial: seq<Record>,
                                chain: seq<Record>, err: Option<ChaseError>)
    requires IsAlias(initial)
  {
    forall k: nat | k < |chain| && (k + 1 < |chain| || !IsGuardError(err)) && HeadAt(l, q, initial, k).Some? ::
      ZonesKnow(l, q, k, HeadAt(l, q, initial, k).value)
  }

  /** Upstream servers then have no say in it. */
  lemma UpstreamHasNoSay(l: Lookups, other: Option<UpstreamLookup>, maxDepth: int, q: Question, initial: seq<Record>,
                         chain: seq<Record>, err: Option<ChaseError>)
    requires Outcome(l, maxDepth, q, initial, chain, err)
    requires ShouldChase(q, initial) ==> ZonesKnowPath(l, q, initial, chain, err)
    ensures Outcome(l.(upstream := other), maxDepth, q, initial, chain, err)
  {
    hide Outcome;
    OnlyTargetsAreAsked(l, other, maxDepth, q, initial, chain, err);
  }

  /**
    Upstream servers matter only by what they say to the client's question with the targets of aliases for its name,
    where the zones have nothing: clients that agree on these give the same outcome.
   */
  lemma OnlyTargetsAreAsked(l: Lookups, other: Option<UpstreamLookup>, maxDepth: int, q: Question,
                            initial: seq<Record>, chain: seq<Record>, err: Option<ChaseError>)
    requires Outcome(l, maxDepth, q, initial, chain, err)
    requires ShouldChase(q, initial) ==> AgreeOnPath(l, other, q, initial, chain, err)
    ensures Outcome(l.(upstream := other), maxDepth, q, initial, chain, err)
  {
    if ShouldChase(q, initial) {
      hide Follow, ZonesKnow, UpstreamsAgree, Repeats, NoRepeatBefore;
      var l' := l.(upstream := other);
      var n: nat :| EndsAt(l, maxDepth, q, initial, n, chain, err);
      var path := Path(l, q, initial, n + 1);
      FollowErrors(l, q, n, path[n]);
      forall k: nat | k <= n ensures HeadAt(l, q, initial, k) == Some(path[k]) {
        PathIsClosed(l, q, initial, k, n);
      }
      SameHeads(l, other, q, initial, n);
      SamePaths(l, l', q, initial, n);
      if !IsGuardError(err) {
        assert HeadAt(l, q, initial, n) == Some(path[n]);
        FollowsAlike(l, other, q, n, path[n]);
      }
      assert EndsAt(l', maxDepth, q, initial, n, chain, err);
    }
  }

  lemma {:induction false} SameHeads(l: Lookups, other: Option<UpstreamLookup>, q: Question, initial: seq<Record>,
                                     n: nat)
    requires IsAlias(initial) && q.qtype != CNAME
    requires forall k: nat | k < n ::
               && HeadAt(l, q, initial, k).Some?
               && (ZonesKnow(l, q, k, HeadAt(l, q, initial, k).value) ||
                   UpstreamsAgree(l, other, q, k, HeadAt(l, q, initial, k).value))
    ensures forall k: nat | k <= n :: HeadAt(l.(upstream := other), q, initial, k) == HeadAt(l, q, initial, k)
    decreases n
  {
    hide Follow, ZonesKnow, UpstreamsAgree;
    if n > 0 {
      SameHeads(l, other, q, initial, n - 1);
      FollowsAlike(l, other, q, n - 1, HeadAt(l, q, initial, n - 1).value);
    }
  }

  /** A chase that has got to hop `n` without an owner twice, and is within its limit there. */
  ghost predicate GetsTo(l: Lookups, maxDepth: int, q: Question, initial: seq<Record>, n: nat) {
    && ShouldChase(q, initial) && HeadAt(l, q, initial, n).Some? && NoRepeatBefore(l, q, initial, n + 1)
    && (maxDepth > 0 ==> n < maxDepth)
  }

  /**
    From there, what the lookups give for the target of the alias decides: nothing ends the chain, another alias
    goes on, and anything else is its end, all without an error.
   */
  lemma LookupsDecide(l: Lookups, maxDepth: int, q: Question, initial: seq<Record>, n: nat, recs: seq<Record>)
    requires GetsTo(l, maxDepth, q, initial, n) && ValidType(q.qtype) && ValidClass(q.qclass)
    requires var asked := TargetQuestion(q, HeadAt(l, q, initial, n).value);
             asked.name != [] && Gives(l, n, asked, recs)
    ensures if recs != [] && recs[0].rtype == 5 then HeadAt(l, q, initial, n + 1) == Some(recs[0])
            else Outcome(l, maxDepth, q, initial, Path(l, q, initial, n + 1) + recs, None)
  {
    FollowMeans(l, q, n, HeadAt(l, q, initial, n).value, recs);
    hide Follow, Gives, Repeats;
    var path := Path(l, q, initial, n + 1);
    assert HeadAt(l, q, initial, n) == Some(path[n]) && !Repeats(l, q, initial, n);
    if recs == [] {
      assert path + recs == path;
      assert EndsAt(l, maxDepth, q, initial, n, path, None);
    } else if recs[0].rtype != 5 {
      assert EndsAt(l, maxDepth, q, initial, n, path + recs, None);
    }
  }

  /** A blank target, or a question no other can be made from, ends it with an error. */
  lemma TargetsFail(l: Lookups, maxDepth: int, q: Question, initial: seq<Record>, n: nat)
    requires GetsTo(l, maxDepth, q, initial, n)
    ensures var path, target := Path(l, q, initial, n + 1), Trim(HeadAt(l, q, initial, n).value.text, SPACES);
            && (target == [] ==> Outcome(l, maxDepth, q, initial, path, Some(TargetInvalid)))
            && (target != [] && !(ValidType(q.qtype) && ValidClass(q.qclass)) ==>
                Outcome(l, maxDepth, q, initial, path, Some(QuestionBuild)))
  {
    var path := Path(l, q, initial, n + 1);
    FollowFails(l, q, n, path[n]);
    hide Follow, Repeats;
    assert HeadAt(l, q, initial, n) == Some(path[n]) && !Repeats(l, q, initial, n);
    var target := Trim(path[n].text, SPACES);
    if target == [] {
      assert EndsAt(l, maxDepth, q, initial, n, path, Some(TargetInvalid));
    } else if !(ValidType(q.qtype) && ValidClass(q.qclass)) {
      assert EndsAt(l, maxDepth, q, initial, n, path, Some(QuestionBuild));
    }
  }

  /** Records that do not begin with a CNAME, and all records if one was asked for, are returned as they are. */
  lemma FastPath(l: Lookups, maxDepth: int, q: Question, initial: seq<Record>,
                 chain: seq<Record>, err: Option<ChaseError>)
    requires initial == [] || initial[0].rtype != 5 || q.qtype == 5
    ensures Outcome(l, maxDepth, q, initial, chain, err) <==> chain == initial && err == None
  {
  }

  lemma SamePaths(l: Lookups, l': Lookups, q: Question, initial: seq<Record>, n: nat)
    requires IsAlias(initial) && forall k: nat | k <= n :: HeadAt(l', q, initial, k) == HeadAt(l, q, initial, k)
    requires HeadAt(l, q, initial, n).Some?
    ensures Path(l', q, initial, n + 1) == Path(l, q, initial, n + 1)
    ensures Repeats(l', q, initial, n) <==> Repeats(l, q, initial, n)
    ensures NoRepeatBefore(l', q, initial, n) <==> NoRepeatBefore(l, q, initial, n)
  {
    hide HeadAt, Repeats;
    var path, path' := Path(l, q, initial, n + 1), Path(l', q, initial, n + 1);
    forall i | 0 <= i < n + 1 ensures path'[i] == path[i] {
      assert HeadAt(l', q, initial, i) == HeadAt(l, q, initial, i);
    }
    forall k: nat | k <= n ensures Repeats(l', q, initial, k) <==> Repeats(l, q, initial, k) {
      SameRepeats(l, l', q, initial, k);
    }
  }

  lemma SameRepeats(l: Lookups, l': Lookups, q: Question, initial: seq<Record>, n: nat)
    requires IsAlias(initial) && forall k: nat | k <= n :: HeadAt(l', q, initial, k) == HeadAt(l, q, initial, k)
    ensures Repeats(l', q, initial, n) <==> Repeats(l, q, initial, n)
  {
    hide HeadAt;
  }

  /** With finitely many owners the chase ends even without a limit: the path ends or comes back to one of them. */
  lemma FiniteOwnersStop(l: Lookups, q: Question, initial: seq<Record>, owners: set<Str>)
    requires IsAlias(initial)
    requires forall k: nat | HeadAt(l, q, initial, k).Some? :: Owner(HeadAt(l, q, initial, k).value) in owners
    ensures StopsBy(l, q, initial, |owners|)
  {
    var n := |owners|;
    if !StopsBy(l, q, initial, n) {
      assert HeadAt(l, q, initial, n).Some? && NoRepeatBefore(l, q, initial, n + 1);
      var path := Path(l, q, initial, n + 1);
      DistinctOwners(l, q, initial, n + 1);
      var names := seq(n + 1, i requires 0 <= i < n + 1 => Owner(path[i]));
      forall i | 0 <= i < n + 1 ensures names[i] in owners {
        assert HeadAt(l, q, initial, i) == Some(path[i]);
      }
      DistinctFits(names, owners);
      assert false;
    }
  }

  /** And only then: a chase without a limit has an outcome only if its path stops, which is what `Chase` asks for. */
  lemma EndsOnlyIfStops(l: Lookups, maxDepth: int, q: Question, initial: seq<Record>, chain: seq<Record>,
                        err: Option<ChaseError>)
    requires ShouldChase(q, initial) && maxDepth <= 0 && Outcome(l, maxDepth, q, initial, chain, err)
    ensures exists stop: nat :: StopsBy(l, q, initial, stop)
  {
    var n: nat :| EndsAt(l, maxDepth, q, initial, n, chain, err);
    var path := Path(l, q, initial, n + 1);
    assert HeadAt(l, q, initial, n) == Some(path[n]);
    assert Repeats(l, q, initial, n) || HeadAt(l, q, initial, n + 1).None?;
    assert StopsBy(l, q, initial, n + 1);
  }
}
