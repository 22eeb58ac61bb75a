/** An NVMe submission and completion queue pair (`QueuePair`) against a controller that answers whenever it likes:
    section 4.6 of the NVM Express 1.4 specification. */
module Nvme {
  import opened Wrappers
  import opened Arith

  /** The command body and the identifier `submit` writes into it. */
  datatype Command = Command(body: nat, cid: nat)

  /** `phase` is the low bit of the status word, `status` the rest. */
  datatype Entry = Entry(cid: nat, status: nat, phase: bool, result: nat)

  /** The host's fields, the two shared rings, and the controller's: where it will fetch and post next, the phase
      it will post, and the doorbells the host has rung. The last three record what has happened so far. */
  datatype State = State(
    n: nat,
    cid: nat, subIndex: nat, compIndex: nat, phase: bool, waiting: bool,
    sub: seq<Command>, comp: seq<Entry>,
    sqHead: nat, sqTail: nat, cqTail: nat, cqHead: nat, cPhase: bool,
    issued: seq<Command>, posted: seq<Entry>, returned: seq<Entry>)

  datatype Step = Submit(body: nat) | Post(status: nat, result: nat) | Check

  predicate Shaped(s: State) {
    && s.n >= 2 && |s.sub| == s.n && |s.comp| == s.n
    && s.subIndex < s.n && s.compIndex < s.n && s.sqHead < s.n && s.cqTail < s.n
  }

  /** The controller works while its submission queue is not empty and its completion queue is not full. */
  predicate Enabled(s: State, t: Step) {
    Shaped(s) &&
    match t
    case Submit(_) => !s.waiting
    case Post(_, _) => s.sqHead != s.sqTail && Inc(s.cqTail, s.n) != s.cqHead
    case Check => s.waiting
  }

  const CIDS: nat := 65536

  function Next(s: State, t: Step): (s': State)
    requires Enabled(s, t)
  {
    match t
    case Submit(body) =>
      var command := Command(body, s.cid);
      var index := Inc(s.subIndex, s.n);
      s.(cid := (s.cid + 1) % CIDS, sub := s.sub[s.subIndex := command], subIndex := index, sqTail := index,
         waiting := true, issued := s.issued + [command])
    case Post(status, result) =>
      var entry := Entry(s.sub[s.sqHead].cid, status, s.cPhase, result);
      var index := Inc(s.cqTail, s.n);
      s.(comp := s.comp[s.cqTail := entry], cqTail := index, cPhase := if index == 0 then !s.cPhase else s.cPhase,
         sqHead := Inc(s.sqHead, s.n), posted := s.posted + [entry])
    case Check =>
      var entry := s.comp[s.compIndex];
      if entry.phase != s.phase then s
      else if entry.status != 0 then s.(waiting := false, returned := s.returned + [entry])
      else
        var index := Inc(s.compIndex, s.n);
        s.(waiting := false, compIndex := index, phase := if index == 0 then !s.phase else s.phase, cqHead := index,
           returned := s.returned + [entry])
  }

  /** `QueuePair::new` over zeroed rings, and a controller set up with the same depth. */
  function Fresh(n: nat): (s: State)
  {
    State(n, 0, 0, 0, true, false,
          seq(n, _ => Command(0, 0)), seq(n, _ => Entry(0, 0, false, 0)),
          0, 0, 0, 0, true, [], [], [])
  }

  function Run(s: State, ts: seq<Step>): (r: Option<State>)
  {
    if ts == [] then Some(s)
    else
      match Run(s, ts[..|ts| - 1])
      case None => None
      case Some(u) => if Enabled(u, ts[|ts| - 1]) then Some(Next(u, ts[|ts| - 1])) else None
  }

  // ---- Invariant ------------------------------------------------------------------------------

  /** Every index and phase is a function of how many commands were issued, posted and returned. */
  predicate Counters(s: State)
  {
    var i, p, k := |s.issued|, |s.posted|, |s.returned|;
    && Shaped(s)
    && k <= p <= i <= k + 1 && (s.waiting <==> i == k + 1)
    && s.cid == i % CIDS
    && s.subIndex == Slot(i, s.n) && s.sqTail == Slot(i, s.n)
    && s.compIndex == Slot(k, s.n) && s.cqHead == Slot(k, s.n) && s.phase == Phase(k, s.n)
    && s.sqHead == Slot(p, s.n) && s.cqTail == Slot(p, s.n) && s.cPhase == Phase(p, s.n)
  }

  /** Slot `j` of the completion ring: the latest entry posted there, or the zeroes it started with. */
  ghost predicate Slots(s: State)
    requires s.n > 0
  {
    && |s.comp| == s.n
    && (forall q: nat :: q < |s.posted| < q + s.n + 1 ==> s.comp[Slot(q, s.n)] == s.posted[q])
    && (forall j: nat :: |s.posted| <= j < s.n ==> !s.comp[j].phase)
    && (forall q: nat :: q < |s.posted| ==> s.posted[q].phase == Phase(q, s.n))
  }

  /** The completion of command `q` carries its identifier; what has been returned is what was posted, in order. */
  ghost predicate Matched(s: State) {
    && (forall q: nat :: q < |s.issued| ==> s.issued[q].cid == q % CIDS)
    && |s.posted| <= |s.issued|
    && (forall q: nat :: q < |s.posted| ==> s.posted[q].cid == s.issued[q].cid)
    && s.returned <= s.posted
    && (|s.issued| > |s.posted| && s.n > 0 ==>
          |s.sub| == s.n && s.sub[Slot(|s.posted|, s.n)] == s.issued[|s.posted|])
  }

  ghost predicate Inv(s: State) { Counters(s) && Slots(s) && Matched(s) }

  lemma SubmitKeeps(s: State, body: nat)
    requires Inv(s) && Enabled(s, Submit(body))
    ensures Inv(Next(s, Submit(body)))
  {
    Advance(|s.issued|, CIDS);
  }

  /** Posting fills the next slot; the other slots keep the latest entry posted there. */
  lemma PostKeepsSlots(s: State, entry: Entry)
    requires s.n > 0 && Slots(s) && entry.phase == Phase(|s.posted|, s.n)
    ensures Slots(s.(comp := s.comp[Slot(|s.posted|, s.n) := entry], posted := s.posted + [entry]))
  {
    var p := |s.posted|;
    var s' := s.(comp := s.comp[Slot(p, s.n) := entry], posted := s.posted + [entry]);
    forall q: nat | q < p + 1 < q + s.n + 1 ensures s'.comp[Slot(q, s.n)] == s'.posted[q] {
      if q < p { SlotsDistinct(q, p, s.n); }
    }
    forall j: nat | p + 1 <= j < s.n ensures !s'.comp[j].phase { FirstLap(p, s.n); }
  }

  lemma PostKeeps(s: State, status: nat, result: nat)
    requires Inv(s) && Enabled(s, Post(status, result))
    ensures Inv(Next(s, Post(status, result)))
  {
    var s' := Next(s, Post(status, result));
    assert |s.posted| < |s.issued|;
    PostKeepsSlots(s, s'.posted[|s.posted|]);
    assert Counters(s');
    assert Slots(s');
  }

  /** A spinning host sees a stale entry as stale: until command `k` has been posted, the slot it watches holds
      either the zeroes of the first lap or the entry of one lap before, both with the wrong phase. */
  lemma StaleLooksStale(s: State)
    requires Inv(s) && |s.posted| == |s.returned|
    ensures s.comp[s.compIndex].phase != s.phase
  {
    var k := |s.returned|;
    if k < s.n {
      FirstLap(k, s.n);
    } else {
      LapLater(k - s.n, s.n);
      assert s.comp[Slot(k - s.n, s.n)] == s.posted[k - s.n];
    }
  }

  lemma CheckReadsOwn(s: State)
    requires Inv(s) && |s.posted| > |s.returned|
    ensures s.comp[s.compIndex] == s.posted[|s.returned|] && s.posted[|s.returned|].phase == s.phase
  {
    assert s.comp[Slot(|s.returned|, s.n)] == s.posted[|s.returned|];
  }

  lemma CheckKeeps(s: State)
    requires Inv(s) && Enabled(s, Check)
    requires |s.posted| > |s.returned| ==> s.posted[|s.returned|].status == 0
    ensures Inv(Next(s, Check))
  {
    if |s.posted| == |s.returned| {
      StaleLooksStale(s);
    } else {
      CheckReadsOwn(s);
    }
  }

  // ---- After an error -------------------------------------------------------------------------

  /** The first completion that reports an error, or how many there are. */
  function FirstError(es: seq<Entry>): (e: nat)
    ensures e <= |es| && (e < |es| ==> es[e].status != 0) && forall q :: 0 <= q < e ==> es[q].status == 0
  {
    if es == [] then 0
    else
      var e := FirstError(es[..|es| - 1]);
      if e == |es| - 1 && es[e].status == 0 then |es| else e
  }

  lemma FirstErrorSnoc(es: seq<Entry>, x: Entry)
    ensures FirstError(es + [x])
            == if FirstError(es) < |es| then FirstError(es) else if x.status == 0 then |es| + 1 else |es|
  {
    assert (es + [x])[..|es + [x]| - 1] == es;
  }

  /** The command identifiers follow the count of commands issued. */
  ghost predicate Stamped(s: State) {
    s.cid == |s.issued| % CIDS && forall q: nat :: q < |s.issued| ==> s.issued[q].cid == q % CIDS
  }

  /** Completion `e` reported an error: the host's index, its doorbell and its phase are still at that entry, the
      controller will not overwrite it, and it has been returned ever since. */
  ghost predicate Jammed(s: State) {
    var e, k := FirstError(s.returned), |s.returned|;
    && Shaped(s) && e < k && e < |s.posted| && Stamped(s) && |s.issued| == k + (if s.waiting then 1 else 0)
    && s.compIndex == Slot(e, s.n) && s.cqHead == s.compIndex && s.cqTail != s.compIndex && s.phase == Phase(e, s.n)
    && s.comp[s.compIndex] == s.posted[e] && s.posted[e].phase == s.phase && s.posted[e].status != 0
    && (forall q: nat :: q < k ==> s.returned[q] == s.posted[if q < e then q else e])
    && (forall q: nat :: q <= e ==> s.posted[q].cid == q % CIDS)
  }

  lemma JamKeeps(s: State, t: Step)
    requires Jammed(s) && Enabled(s, t)
    ensures Jammed(Next(s, t)) && FirstError(Next(s, t).returned) == FirstError(s.returned)
  {
    match t
    case Submit(_) => Advance(|s.issued|, CIDS);
    case Post(_, _) =>
    case Check => FirstErrorSnoc(s.returned, s.comp[s.compIndex]);
  }

  /** Reading an error entry jams the queue. */
  lemma ErrorJams(s: State)
    requires Inv(s) && s.waiting && FirstError(s.returned) == |s.returned|
    requires |s.posted| > |s.returned| && s.posted[|s.returned|].status != 0
    ensures Jammed(Next(s, Check))
  {
    var k := |s.returned|;
    CheckReadsOwn(s);
    FirstErrorSnoc(s.returned, s.posted[k]);
    SlotsDistinct(k, k + 1, s.n);
  }

  // ---- Runs -----------------------------------------------------------------------------------

  /** Error-free so far and in step, or jammed. */
  ghost predicate Reached(s: State) {
    if FirstError(s.returned) == |s.returned| then Inv(s) else Jammed(s)
  }

  lemma NextReached(s: State, t: Step)
    requires Reached(s) && Enabled(s, t)
    ensures Reached(Next(s, t))
  {
    if FirstError(s.returned) < |s.returned| {
      JamKeeps(s, t);
    } else {
      match t
      case Submit(body) => SubmitKeeps(s, body);
      case Post(status, result) => PostKeeps(s, status, result);
      case Check => CheckReached(s);
    }
  }

  lemma CheckReached(s: State)
    requires Inv(s) && FirstError(s.returned) == |s.returned| && Enabled(s, Check)
    ensures Reached(Next(s, Check))
  {
    if |s.posted| == |s.returned| {
      CheckKeeps(s);
      StaleLooksStale(s);
    } else {
      CheckReadsOwn(s);
      FirstErrorSnoc(s.returned, s.posted[|s.returned|]);
      if s.posted[|s.returned|].status == 0 { CheckKeeps(s); } else { ErrorJams(s); }
    }
  }

  /** Every run, whatever the completions report, is in step or jammed. */
  lemma {:induction false} RunKeeps(n: nat, ts: seq<Step>)
    requires n >= 2 && Run(Fresh(n), ts).Some?
    ensures var s := Run(Fresh(n), ts).value; s.n == n && Reached(s)
  {
    if ts != [] {
      RunKeeps(n, ts[..|ts| - 1]);
      NextReached(Run(Fresh(n), ts[..|ts| - 1]).value, ts[|ts| - 1]);
    }
  }

  /** Which completion the k-th `submit` returns, if the e-th is the first to report an error. */
  function Source(k: nat, e: nat): (q: nat) { if k < e then k else e }

  /** Every `submit` so far has returned the completion of its own command, up to the first that reports an error, and
      that one from then on. */
  ghost predicate Faithful(s: State) {
    var e := FirstError(s.returned);
    forall k: nat :: k < |s.returned| ==> Source(k, e) < |s.posted| && s.returned[k] == s.posted[Source(k, e)]
  }

  /** Up to then each carried the identifier of its command, which is its number. */
  ghost predicate Named(s: State) {
    forall k: nat :: k < |s.returned| && k <= FirstError(s.returned) ==>
      k < |s.issued| && s.returned[k].cid == s.issued[k].cid == k % CIDS
  }

  lemma ReachedMeans(s: State)
    requires Reached(s)
    ensures Faithful(s) && Named(s) && Stamped(s)
    ensures |s.issued| == |s.returned| + (if s.waiting then 1 else 0)
    ensures s.compIndex == Slot(FirstError(s.returned), s.n) && s.phase == Phase(FirstError(s.returned), s.n)
  {
    if FirstError(s.returned) == |s.returned| { InvMeans(s); } else { JamMeans(s); }
  }

  lemma InvMeans(s: State)
    requires Inv(s) && FirstError(s.returned) == |s.returned|
    ensures Faithful(s) && Named(s) && Stamped(s)
  {
  }

  lemma JamMeans(s: State)
    requires Jammed(s)
    ensures Faithful(s) && Named(s)
  {
    var e := FirstError(s.returned);
    forall k: nat | k < |s.returned| ensures Source(k, e) < |s.posted| && s.returned[k] == s.posted[Source(k, e)] {}
    forall k: nat | k < |s.returned| && k <= e
      ensures k < |s.issued| && s.returned[k].cid == s.issued[k].cid == k % CIDS
    {
      assert s.returned[k] == s.posted[Source(k, e)];
    }
  }

  /** Phase correctness: over every interleaving and any number of laps, the k-th `submit` returns the completion of the
      k-th command and never an entry of an earlier lap, up to and including the first that reports an error; from then
      on every `submit` returns that one. The host's index and phase are the count of good completions modulo the ring
      size and the parity of the laps. */
  lemma PhaseCorrect(n: nat, ts: seq<Step>)
    requires n >= 2 && Run(Fresh(n), ts).Some?
    ensures var s := Run(Fresh(n), ts).value;
            var e := FirstError(s.returned);
            && s.compIndex == e % n && s.phase == ((e / n) % 2 == 0)
            && |s.issued| == |s.returned| + (if s.waiting then 1 else 0)
            && Faithful(s) && Named(s)
  {
    RunKeeps(n, ts);
    ReachedMeans(Run(Fresh(n), ts).value);
    SlotIsMod(FirstError(Run(Fresh(n), ts).value.returned), n);
  }

  // ---- What reaches the controller, and what comes back ---------------------------------------

  /** The bodies handed to `submit`, in order. */
  function Bodies(ts: seq<Step>): (bodies: seq<nat>)
  {
    if ts == [] then []
    else Bodies(ts[..|ts| - 1]) + if ts[|ts| - 1].Submit? then [ts[|ts| - 1].body] else []
  }

  /** The status and result of each completion the controller posted. */
  function Posts(ts: seq<Step>): (posts: seq<(nat, nat)>)
  {
    if ts == [] then []
    else Posts(ts[..|ts| - 1]) + if ts[|ts| - 1].Post? then [(ts[|ts| - 1].status, ts[|ts| - 1].result)] else []
  }

  /** What the controller found in the submission ring each time it posted. */
  ghost function Fetched(n: nat, ts: seq<Step>): (commands: seq<Command>)
    requires Run(Fresh(n), ts).Some?
  {
    if ts == [] then []
    else
      var s := Run(Fresh(n), ts[..|ts| - 1]).value;
      Fetched(n, ts[..|ts| - 1]) + if ts[|ts| - 1].Post? then [s.sub[s.sqHead]] else []
  }

  /** The k-th command has the k-th body and its number for an identifier, and the k-th completion is the k-th the
      controller posted. */
  ghost predicate Recorded(s: State, bodies: seq<nat>, posts: seq<(nat, nat)>) {
    && |s.issued| == |bodies| && |s.posted| == |posts| && s.cid == |bodies| % CIDS
    && (forall k :: 0 <= k < |bodies| ==> s.issued[k] == Command(bodies[k], k % CIDS))
    && (forall k :: 0 <= k < |posts| ==> s.posted[k].status == posts[k].0 && s.posted[k].result == posts[k].1)
  }

  /** The submission ring holds the latest commands, as many as fit, and the controller is not ahead of the host. */
  ghost predicate Ring(s: State) {
    && Shaped(s) && |s.posted| <= |s.issued|
    && s.sqHead == Slot(|s.posted|, s.n) && s.subIndex == s.sqTail == Slot(|s.issued|, s.n)
    && (forall q: nat :: q < |s.issued| <= q + s.n ==> s.sub[Slot(q, s.n)] == s.issued[q])
  }

  lemma NextRing(s: State, t: Step)
    requires Ring(s) && Enabled(s, t)
    ensures Ring(Next(s, t))
  {
    if t.Submit? {
      var i := |s.issued|;
      forall q: nat | q < i < q + s.n ensures Slot(q, s.n) != Slot(i, s.n) { SlotsDistinct(q, i, s.n); }
    }
  }

  lemma NextRecorded(s: State, t: Step, bodies: seq<nat>, posts: seq<(nat, nat)>)
    requires Recorded(s, bodies, posts) && Enabled(s, t)
    ensures Recorded(Next(s, t), bodies + (if t.Submit? then [t.body] else []),
                     posts + (if t.Post? then [(t.status, t.result)] else []))
  {
    Advance(|bodies|, CIDS);
  }

  /** Whatever the completions report, these hold. */
  lemma {:induction false} RunRing(n: nat, ts: seq<Step>)
    requires n >= 2 && Run(Fresh(n), ts).Some?
    ensures var s := Run(Fresh(n), ts).value; s.n == n && Ring(s) && Recorded(s, Bodies(ts), Posts(ts))
  {
    if ts != [] {
      var ts', t := ts[..|ts| - 1], ts[|ts| - 1];
      RunRing(n, ts');
      NextRing(Run(Fresh(n), ts').value, t);
      NextRecorded(Run(Fresh(n), ts').value, t, Bodies(ts'), Posts(ts'));
    }
  }

  /** As long as no more than `n` commands are outstanding, what the controller fetches next is the oldest of them, as
      it was submitted. */
  lemma FetchIs(n: nat, ts: seq<Step>)
    requires n >= 2 && Run(Fresh(n), ts).Some?
    requires var s := Run(Fresh(n), ts).value; |s.posted| < |s.issued| <= |s.posted| + n
    ensures var s := Run(Fresh(n), ts).value;
            var k := |Posts(ts)|;
            k < |Bodies(ts)| && s.sqHead < |s.sub| && s.sub[s.sqHead] == Command(Bodies(ts)[k], k % CIDS)
  {
    RunRing(n, ts);
  }

  /** The k-th command is the one with the k-th body, and its number for an identifier. */
  ghost predicate InTurn(commands: seq<Command>, bodies: seq<nat>) {
    |commands| <= |bodies| && forall k :: 0 <= k < |commands| ==> commands[k] == Command(bodies[k], k % CIDS)
  }

  /** No `submit` has returned an error. */
  ghost predicate Calm(s: State) { FirstError(s.returned) == |s.returned| }

  lemma CalmBefore(s: State, t: Step)
    requires Enabled(s, t) && Calm(Next(s, t))
    ensures Calm(s)
  {
    if t.Check? && Next(s, t).returned != s.returned { FirstErrorSnoc(s.returned, s.comp[s.compIndex]); }
  }

  lemma CalmFetch(n: nat, ts: seq<Step>, t: Step)
    requires n >= 2 && Run(Fresh(n), ts).Some? && Calm(Run(Fresh(n), ts).value)
    requires t.Post? && Enabled(Run(Fresh(n), ts).value, t)
    ensures var s := Run(Fresh(n), ts).value;
            var k := |Posts(ts)|;
            k < |Bodies(ts)| && s.sub[s.sqHead] == Command(Bodies(ts)[k], k % CIDS)
  {
    RunKeeps(n, ts);
    OneOutstanding(Run(Fresh(n), ts).value, t);
    FetchIs(n, ts);
  }

  lemma OneOutstanding(s: State, t: Step)
    requires Inv(s) && t.Post? && Enabled(s, t)
    ensures |s.posted| < |s.issued| <= |s.posted| + s.n
  {
  }

  lemma FetchOneMore(n: nat, ts: seq<Step>, t: Step)
    requires Run(Fresh(n), ts).Some? && Enabled(Run(Fresh(n), ts).value, t)
    ensures Run(Fresh(n), ts + [t]).Some?
    ensures var s := Run(Fresh(n), ts).value;
            Fetched(n, ts + [t]) == Fetched(n, ts) + if t.Post? then [s.sub[s.sqHead]] else []
    ensures Bodies(ts) <= Bodies(ts + [t]) && |Posts(ts + [t])| == |Posts(ts)| + if t.Post? then 1 else 0
  {
    assert (ts + [t])[..|ts + [t]| - 1] == ts;
  }

  /** As long as no `submit` has returned an error, the k-th command the controller fetches is the k-th one submitted,
      body and identifier. */
  lemma {:induction false} FetchedInOrder(n: nat, ts: seq<Step>)
    requires n >= 2 && Run(Fresh(n), ts).Some? && Calm(Run(Fresh(n), ts).value)
    ensures |Fetched(n, ts)| == |Posts(ts)| && InTurn(Fetched(n, ts), Bodies(ts))
  {
    if ts != [] {
      var ts', t := ts[..|ts| - 1], ts[|ts| - 1];
      var s := Run(Fresh(n), ts').value;
      CalmBefore(s, t);
      FetchedInOrder(n, ts');
      FetchOneMore(n, ts', t);
      assert ts' + [t] == ts;
      if t.Post? {
        CalmFetch(n, ts', t);
        InTurnOneMore(Fetched(n, ts'), s.sub[s.sqHead], Bodies(ts'), Bodies(ts));
      }
    }
  }

  lemma InTurnOneMore(commands: seq<Command>, c: Command, bodies: seq<nat>, bodies': seq<nat>)
    requires InTurn(commands, bodies) && bodies <= bodies' && |commands| < |bodies|
    requires c == Command(bodies[|commands|], |commands| % CIDS)
    ensures InTurn(commands + [c], bodies')
  {
  }

  /** End to end: the k-th `submit` returns the status and result the controller posted for the k-th command, up to the
      first error, and those of that one from then on. */
  lemma SubmitReturns(n: nat, ts: seq<Step>, k: nat)
    requires n >= 2 && Run(Fresh(n), ts).Some? && k < |Run(Fresh(n), ts).value.returned|
    ensures var r := Run(Fresh(n), ts).value.returned;
            var q := Source(k, FirstError(r));
            && q < |Posts(ts)| && r[k].cid == q % CIDS
            && r[k].status == Posts(ts)[q].0 && r[k].result == Posts(ts)[q].1
  {
    RunKeeps(n, ts);
    RunRing(n, ts);
    var s := Run(Fresh(n), ts).value;
    ReachedMeans(s);
    var e := FirstError(s.returned);
    assert s.returned[k] == s.posted[Source(k, e)];
    if k > e { assert s.returned[e] == s.posted[Source(e, e)]; }
  }

  /** The k-th `submit` has returned the completion of the k-th command: what the controller posted for it, with its
      identifier. */
  predicate Own(s: State, k: nat) {
    && k < |s.returned| && k < |s.posted| && k < |s.issued|
    && s.returned[k] == s.posted[k] && s.returned[k].cid == s.issued[k].cid
  }

  /** Every `submit` of a run returned its own completion exactly if none but the last of them reported an error. */
  lemma AllOwnIff(n: nat, ts: seq<Step>)
    requires n >= 2 && Run(Fresh(n), ts).Some?
    ensures var s := Run(Fresh(n), ts).value;
            AllOwn(s) <==> forall q: nat :: q + 1 < |s.returned| ==> s.returned[q].status == 0
  {
    RunKeeps(n, ts);
    ReachedMeans(Run(Fresh(n), ts).value);
    OwnIff(Run(Fresh(n), ts).value);
  }

  ghost predicate AllOwn(s: State) { forall k: nat :: k < |s.returned| ==> Own(s, k) }

  lemma OwnIff(s: State)
    requires Faithful(s) && Named(s) && Stamped(s) && |s.returned| <= |s.issued|
    ensures AllOwn(s) <==> forall q: nat :: q + 1 < |s.returned| ==> s.returned[q].status == 0
  {
    var e := FirstError(s.returned);
    if e + 1 < |s.returned| {
      assert s.returned[e + 1] == s.posted[Source(e + 1, e)] == s.returned[e];
      assert s.returned[e].cid == e % CIDS && s.issued[e + 1].cid == (e + 1) % CIDS;
      NextCid(e);
      assert !Own(s, e + 1);
    } else {
      forall k: nat | k < |s.returned| ensures Own(s, k) { assert Source(k, e) == k; }
    }
  }

  lemma NextCid(e: nat)
    ensures e % CIDS != (e + 1) % CIDS
  {
  }

  /** A host that waits is never stuck: its next check returns, or the controller is free to post. After an error it
      returns at once, with the same entry, answered or not. */
  lemma NeverStuck(n: nat, ts: seq<Step>)
    requires n >= 2 && Run(Fresh(n), ts).Some?
    requires Run(Fresh(n), ts).value.waiting
    ensures var s := Run(Fresh(n), ts).value;
            var e := FirstError(s.returned);
            if e < |s.returned| || e < |s.posted|
            then e < |s.posted| && Next(s, Check).returned == s.returned + [s.posted[e]]
            else Next(s, Check) == s && Enabled(s, Post(0, 0))
  {
    RunKeeps(n, ts);
    var s := Run(Fresh(n), ts).value;
    if FirstError(s.returned) < |s.returned| {
      JammedReturns(s);
    } else if |s.posted| > |s.returned| {
      AnsweredReturns(s);
    } else {
      UnansweredCanPost(s);
    }
  }

  lemma JammedReturns(s: State)
    requires Jammed(s) && s.waiting
    ensures var e := FirstError(s.returned);
            e < |s.posted| && Next(s, Check).returned == s.returned + [s.posted[e]]
  {
  }

  lemma AnsweredReturns(s: State)
    requires Inv(s) && s.waiting && |s.posted| > |s.returned|
    ensures Next(s, Check).returned == s.returned + [s.posted[|s.returned|]]
  {
    CheckReadsOwn(s);
  }

  lemma UnansweredCanPost(s: State)
    requires Inv(s) && s.waiting && |s.posted| == |s.returned|
    ensures Next(s, Check) == s && Enabled(s, Post(0, 0))
  {
    StaleLooksStale(s);
    SlotsDistinct(|s.posted|, |s.posted| + 1, s.n);
  }

  // ---- The host side, in place ----------------------------------------------------------------

  /** The queue pair's own fields and the doorbells it writes; the rings are shared with the controller. */
  class QueuePair {
    var commandId: nat
    var submission: seq<Command>
    var submissionIndex: nat
    var completion: seq<Entry>
    var completionIndex: nat
    var phase: bool
    var submissionDoorbell: nat
    var completionDoorbell: nat

    /** The state as it is with this host, the given controller and the given past. */
    ghost function With(s: State): (r: State)
      reads this
    {
      s.(n := |submission|, cid := commandId, sub := submission, subIndex := submissionIndex, comp := completion,
         compIndex := completionIndex, phase := phase, sqTail := submissionDoorbell, cqHead := completionDoorbell)
    }

    constructor (size: nat)
      ensures With(Fresh(size)) == Fresh(size)
    {
      commandId, submissionIndex, completionIndex, phase := 0, 0, 0, true;
      submission := seq(size, _ => Command(0, 0));
      completion := seq(size, _ => Entry(0, 0, false, 0));
      submissionDoorbell, completionDoorbell := 0, 0;
    }

    /** The first half of `submit`: stamp, store, advance and ring the doorbell. */
    method Issue(body: nat, ghost s: State)
      requires With(s) == s && Enabled(s, Submit(body))
      modifies this
      ensures With(Next(s, Submit(body))) == Next(s, Submit(body))
      ensures submission == old(submission)[old(submissionIndex) := Command(body, old(commandId))]
    {
      var command := Command(body, commandId);
      commandId := (commandId + 1) % CIDS;
      submission := submission[submissionIndex := command];
      IncIsMod(submissionIndex, |submission|);
      submissionIndex := (submissionIndex + 1) % |submission|;
      submissionDoorbell := submissionIndex;
    }

    /** One turn of the spin loop and, once the phase matches, the rest of `submit`; None is another turn. */
    method Spin(ghost s: State) returns (r: Option<Entry>)
      requires With(s) == s && Enabled(s, Check)
      modifies this
      ensures With(Next(s, Check)) == Next(s, Check)
      ensures r == None <==> Next(s, Check).waiting
      ensures r.Some? ==> Next(s, Check).returned == s.returned + [r.value]
    {
      var entry := completion[completionIndex];
      if entry.phase != phase { return None; }
      r := Some(entry);
      if entry.status != 0 { return; }
      IncIsMod(completionIndex, |completion|);
      completionIndex := (completionIndex + 1) % |completion|;
      if completionIndex == 0 { phase := !phase; }
      completionDoorbell := completionIndex;
    }
  }
}
