/**
  backend/core/scheduler.py: which pending node runs next.

  The rows fetched from the database, the clock, the model choice and the iteration order of
  a Python set are inputs.  GPU admission is the state of the GPU manager.
 */
module Scheduler {
  import opened Wrappers
  import opened StableSort
  import Gpu = GpuManager

  const MAX_GPU_WAIT_SEC := 600.0
  const LORA_OVERHEAD_MB := 256
  const REVIEW_PRIORITY_BOOST := 50
  const SAME_BASE_BOOST := 30
  const ROUND_ROBIN_BOOST := 20
  const STARVATION_BOOST := 1000
  const DEFAULT_VRAM_MB := 4000
  const VRAM_ESTIMATES: map<string, int> := map[
    "gemma3:4b" := 2800, "gemma4:e4b" := 2800, "gemma4:26b" := 6000, "gemma4:31b" := 7000,
    "qwen2.5-coder:7b" := 4500, "qwen2.5-coder:14b" := 8500, "qwen2.5-coder:32b" := 18000,
    "qwen2.5-coder:70b" := 40000, "llama3.3:70b" := 40000, "phi4-reasoning" := 8000]

  /**
    A fetched row.  `createdAt` is the creation text by its rank in text order; `createdTime`
    is the instant it denotes, absent when it cannot be parsed or compared with the clock.
   */
  datatype Node = Node(
    nodeId: string, jobId: string, title: string, workspaceId: string, priority: int,
    createdAt: int, createdTime: Option<real>)

  datatype Candidate = Candidate(node: Node, modelId: string, score: int, starving: bool)

  datatype Decision = Decision(nodeId: string, jobId: string, modelId: string, vramMb: int, score: int)

  /** Review keywords, model selection and the active rows of the model registry. */
  datatype Config = Config(isReview: string -> bool, pickModel: Node -> string, registry: map<string, int>)

  function EstimateVram(registry: map<string, int>, modelId: string, loraId: Option<string>): int {
    var base := if modelId in registry && registry[modelId] != 0 then registry[modelId]
                else if modelId in VRAM_ESTIMATES then VRAM_ESTIMATES[modelId] else DEFAULT_VRAM_MB;
    base + if loraId.Some? && loraId.value != "" then LORA_OVERHEAD_MB else 0
  }

  /** The part before the first colon. */
  function BaseOf(modelId: string): string {
    if modelId == "" || modelId[0] == ':' then "" else [modelId[0]] + BaseOf(modelId[1..])
  }

  function LoadedBases(loaded: seq<Gpu.Entry>): set<string> {
    set e | e in loaded :: BaseOf(e.key)
  }

  predicate Starves(node: Node, now: real) {
    node.createdTime.Some? && now - node.createdTime.value > MAX_GPU_WAIT_SEC
  }

  function Points(priority: int, review: bool, sameBase: bool, roundRobin: bool, starving: bool): int {
    priority
    + (if review then REVIEW_PRIORITY_BOOST else 0)
    + (if sameBase then SAME_BASE_BOOST else 0)
    + (if roundRobin then ROUND_ROBIN_BOOST else 0)
    + (if starving then STARVATION_BOOST else 0)
  }

  function Annotate(node: Node, config: Config, bases: set<string>, nextWorkspace: string, now: real): Candidate {
    var modelId := config.pickModel(node);
    var starving := Starves(node, now);
    Candidate(
      node, modelId,
      Points(node.priority, config.isReview(node.title), BaseOf(modelId) in bases,
             node.workspaceId == nextWorkspace, starving),
      starving)
  }

  function ScoreAll(nodes: seq<Node>, config: Config, bases: set<string>, next: string, now: real): (cs: seq<Candidate>)
    ensures |cs| == |nodes|
    ensures forall i :: 0 <= i < |nodes| ==> cs[i] == Annotate(nodes[i], config, bases, next, now)
  {
    seq(|nodes|, i requires 0 <= i < |nodes| => Annotate(nodes[i], config, bases, next, now))
  }

  /** Highest score first, then oldest. */
  function RankOf(c: Candidate): Rank { (-c.score, c.node.createdAt) }

  function Winner(cs: seq<Candidate>): Candidate
    requires cs != []
  {
    Permutes(cs, RankOf);
    Sort(cs, RankOf)[0]
  }

  function Workspaces(nodes: seq<Node>): set<string> {
    set n | n in nodes :: n.workspaceId
  }

  /** The distinct workspaces in the order they first occur. */
  function FirstSeen(nodes: seq<Node>): (ws: seq<string>)
    ensures forall w :: w in ws <==> w in Workspaces(nodes)
    ensures NoRepeats(ws)
  {
    if nodes == [] then []
    else
      var before := FirstSeen(nodes[..|nodes| - 1]);
      var last := nodes[|nodes| - 1];
      assert nodes == nodes[..|nodes| - 1] + [last];
      assert forall n :: n in nodes <==> n in nodes[..|nodes| - 1] || n == last;
      if last.workspaceId in before then before else before + [last.workspaceId]
  }

  predicate NoRepeats(ws: seq<string>) {
    forall i, j :: 0 <= i < j < |ws| ==> ws[i] != ws[j]
  }

  function IndexOf(ws: seq<string>, w: string): (i: nat)
    requires w in ws
    ensures i < |ws| && ws[i] == w
    ensures forall j :: 0 <= j < i ==> ws[j] != w
  {
    if ws[0] == w then 0 else 1 + IndexOf(ws[1..], w)
  }

  /** The cursor stands right behind the served workspace, around the end of the list. */
  function Advance(ws: seq<string>, served: string): (cursor: nat)
    requires served in ws
    ensures cursor < |ws|
    ensures ws[if cursor == 0 then |ws| - 1 else cursor - 1] == served
    ensures NoRepeats(ws) && |ws| > 1 ==> ws[cursor] != served
  {
    WrapsAround(IndexOf(ws, served), |ws|);
    (IndexOf(ws, served) + 1) % |ws|
  }

  lemma WrapsAround(i: nat, n: nat)
    requires i < n
    ensures (i + 1) % n == if i + 1 == n then 0 else i + 1
  {
  }

  /** The cursor after a node of that workspace is scheduled; the empty name does not move it. */
  function Serve(ws: seq<string>, cursor: int, served: string): int
    requires served in ws
  {
    if served == "" then cursor else Advance(ws, served)
  }

  /** The workspace the cursor favours, in the order in which the set happens to iterate. */
  function Favoured(setOrder: seq<string>, cursor: int): string
    requires setOrder != []
  {
    setOrder[cursor % |setOrder|]
  }

  /** Any order of the distinct workspaces may come out of a set. */
  ghost predicate Enumerates(setOrder: seq<string>, nodes: seq<Node>) {
    NoRepeats(setOrder) && forall w :: w in setOrder <==> w in Workspaces(nodes)
  }

  function Ranked(gpu: Gpu.GpuState, nodes: seq<Node>, config: Config, setOrder: seq<string>, cursor: int, now: real)
    : (cs: seq<Candidate>)
    requires nodes != [] ==> setOrder != []
    ensures |cs| == |nodes|
  {
    if nodes == [] then []
    else ScoreAll(nodes, config, LoadedBases(gpu.loaded), Favoured(setOrder, cursor), now)
  }

  predicate Admits(gpu: Gpu.GpuState, config: Config, c: Candidate) {
    Gpu.CanFit(gpu, EstimateVram(config.registry, c.modelId, None)) || c.starving
  }

  function Decide(config: Config, c: Candidate): Decision {
    Decision(c.node.nodeId, c.node.jobId, c.modelId, EstimateVram(config.registry, c.modelId, None), c.score)
  }

  // ---------------------------------------------------------------- the class

  class JobScheduler {
    const gpu: Gpu.GPUManager
    const config: Config
    var lastWorkspaceIdx: int

    constructor (gpu: Gpu.GPUManager, config: Config, restored: int)
      ensures this.gpu == gpu && this.config == config && lastWorkspaceIdx == restored
    {
      this.gpu, this.config, lastWorkspaceIdx := gpu, config, restored;
    }

    method ScoreCandidates(nodes: seq<Node>, setOrder: seq<string>, now: real) returns (scored: seq<Candidate>)
      requires nodes != [] ==> setOrder != []
      ensures scored == Ranked(gpu.State(), nodes, config, setOrder, lastWorkspaceIdx, now)
    {
      scored := [];
      if nodes == [] {
        return;
      }
      var bases := LoadedBases(gpu.loadedModels);
      var next := Favoured(setOrder, lastWorkspaceIdx);
      for i := 0 to |nodes|
        invariant |scored| == i
        invariant forall k :: 0 <= k < i ==> scored[k] == Annotate(nodes[k], config, bases, next, now)
      {
        var node := nodes[i];
        var score := node.priority;
        if config.isReview(node.title) {
          score := score + REVIEW_PRIORITY_BOOST;
        }
        var modelId := config.pickModel(node);
        if BaseOf(modelId) in bases {
          score := score + SAME_BASE_BOOST;
        }
        if node.workspaceId == next {
          score := score + ROUND_ROBIN_BOOST;
        }
        var starving := Starves(node, now);
        if starving {
          score := score + STARVATION_BOOST;
        }
        scored := scored + [Candidate(node, modelId, score, starving)];
      }
    }

    method ScheduleNext(nodes: seq<Node>, setOrder: seq<string>, now: real) returns (decision: Option<Decision>)
      requires Enumerates(setOrder, nodes)
      modifies this`lastWorkspaceIdx
      ensures nodes == [] ==> decision == None && lastWorkspaceIdx == old(lastWorkspaceIdx)
      ensures nodes != [] ==>
                assert nodes[0].workspaceId in setOrder;
                var best := Winner(Ranked(gpu.State(), nodes, config, setOrder, old(lastWorkspaceIdx), now));
                if Admits(gpu.State(), config, best) then
                  && decision == Some(Decide(config, best))
                  && decision.value.nodeId == best.node.nodeId && decision.value.jobId == best.node.jobId
                  && decision.value.modelId == best.modelId && decision.value.score == best.score
                  && decision.value.vramMb == EstimateVram(config.registry, best.modelId, None)
                  && best.node in nodes && best.modelId == config.pickModel(best.node)
                  && lastWorkspaceIdx == Serve(FirstSeen(nodes), old(lastWorkspaceIdx), best.node.workspaceId)
                else decision == None && lastWorkspaceIdx == old(lastWorkspaceIdx)
    {
      if nodes == [] {
        return None;
      }
      assert nodes[0].workspaceId in setOrder;
      var scored := ScoreCandidates(nodes, setOrder, now);
      Permutes(scored, RankOf);
      var best := Sort(scored, RankOf)[0];
      assert best in scored;
      var needed := EstimateVram(config.registry, best.modelId, None);
      if !gpu.FitsNow(needed) && !best.starving {
        return None;
      }
      assert best.node.workspaceId in Workspaces(nodes);
      if best.node.workspaceId != "" {
        lastWorkspaceIdx := Advance(FirstSeen(nodes), best.node.workspaceId);
      }
      assert best.modelId == config.pickModel(best.node);
      decision := Some(Decide(config, best));
    }
  }

  // -------------------------------------------------------------- properties

  /** A node starves from 600 seconds after its creation on, if that is known. */
  lemma StarvationBegins(node: Node, waited: real)
    ensures node.createdTime.Some? ==> (Starves(node, node.createdTime.value + waited) <==> waited > 600.0)
    ensures node.createdTime.None? ==> !Starves(node, waited)
  {
  }

  /** What each boost is worth in points of priority. */
  lemma BoostWorth(priority: int, review: bool, sameBase: bool, roundRobin: bool, starving: bool)
    ensures Points(priority, false, false, false, false) == priority
    ensures Points(priority, true, sameBase, roundRobin, starving)
            == Points(priority + 50, false, sameBase, roundRobin, starving)
    ensures Points(priority, review, true, roundRobin, starving)
            == Points(priority + 30, review, false, roundRobin, starving)
    ensures Points(priority, review, sameBase, true, starving)
            == Points(priority + 20, review, sameBase, false, starving)
    ensures Points(priority, review, sameBase, roundRobin, true)
            == Points(priority + 1000, review, sameBase, roundRobin, false)
  {
  }

  /** The estimate of a model is its registered size, else its tabulated one, else 4000; an adapter adds 256. */
  lemma EstimateSources(registry: map<string, int>, modelId: string, adapter: string)
    ensures modelId in registry && registry[modelId] != 0 ==> EstimateVram(registry, modelId, None) == registry[modelId]
    ensures (modelId !in registry || registry[modelId] == 0) ==>
              EstimateVram(registry, modelId, None)
              == if modelId in VRAM_ESTIMATES then VRAM_ESTIMATES[modelId] else 4000
    ensures EstimateVram(registry, modelId, Some("")) == EstimateVram(registry, modelId, None)
    ensures adapter != "" ==>
              EstimateVram(registry, modelId, Some(adapter)) == EstimateVram(registry, modelId, None) + 256
  {
  }

  /** The winner has the maximal score, the earliest creation among those, and came first among those. */
  lemma WinnerIsBestThenOldest(cs: seq<Candidate>) returns (i: nat)
    requires cs != []
    ensures i < |cs| && cs[i] == Winner(cs)
    ensures forall c :: c in cs ==> c.score <= cs[i].score
    ensures forall c :: c in cs && c.score == cs[i].score ==> cs[i].node.createdAt <= c.node.createdAt
    ensures forall j :: 0 <= j < i && cs[j].score == cs[i].score ==> cs[i].node.createdAt < cs[j].node.createdAt
  {
    i := FirstIsEarliestLeast(cs, RankOf);
    forall c | c in cs ensures !Before(RankOf(c), RankOf(cs[i])) {}
  }

  /** Priority and boosts, apart from the one for starving. */
  function Standing(node: Node, config: Config, bases: set<string>, next: string): int {
    Points(node.priority, config.isReview(node.title), BaseOf(config.pickModel(node)) in bases,
           node.workspaceId == next, false)
  }

  /** The starving node `k` goes before the other node `n`. */
  predicate HoldsOff(nodes: seq<Node>, config: Config, bases: set<string>, next: string, k: nat, n: nat)
    requires k < |nodes| && n < |nodes|
  {
    var lead := Standing(nodes[n], config, bases, next) - Standing(nodes[k], config, bases, next);
    || lead < STARVATION_BOOST
    || (lead == STARVATION_BOOST
        && (nodes[k].createdAt < nodes[n].createdAt || (nodes[k].createdAt == nodes[n].createdAt && k < n)))
  }

  ghost predicate HoldsOffAll(nodes: seq<Node>, config: Config, bases: set<string>, next: string, now: real, k: nat)
    requires k < |nodes|
  {
    forall n :: 0 <= n < |nodes| && !Starves(nodes[n], now) ==> HoldsOff(nodes, config, bases, next, k, n)
  }

  /**
    The starvation guard, for any queue and any boosts: a starving node wins exactly when some starving
    node is behind every other node by less than 1000 points, or by 1000 and is the older one, or
    as old and fetched earlier.
   */
  lemma StarvingWinsIff(nodes: seq<Node>, config: Config, bases: set<string>, next: string, now: real)
    requires nodes != []
    ensures Winner(ScoreAll(nodes, config, bases, next, now)).starving <==>
              exists k :: 0 <= k < |nodes| && Starves(nodes[k], now) && HoldsOffAll(nodes, config, bases, next, now, k)
  {
    var cs := ScoreAll(nodes, config, bases, next, now);
    var i := WinnerIsBestThenOldest(cs);
    forall n | 0 <= n < |nodes| ensures cs[n] in cs && cs[n] == Annotate(nodes[n], config, bases, next, now) {}
    if cs[i].starving {
      forall n | 0 <= n < |nodes| && !Starves(nodes[n], now) ensures HoldsOff(nodes, config, bases, next, i, n) {}
      assert HoldsOffAll(nodes, config, bases, next, now, i);
    } else {
      forall k | 0 <= k < |nodes| && Starves(nodes[k], now) ensures !HoldsOff(nodes, config, bases, next, k, i) {}
    }
  }

  /** No boosts can outweigh a priority lead of less than 900. */
  lemma StarvingNodeWins(nodes: seq<Node>, config: Config, bases: set<string>, next: string, now: real, k: nat)
    requires k < |nodes| && Starves(nodes[k], now)
    requires forall n :: n in nodes && !Starves(n, now) ==>
               n.priority - nodes[k].priority < 900
               || (n.priority - nodes[k].priority == 900 && nodes[k].createdAt < n.createdAt)
    ensures Winner(ScoreAll(nodes, config, bases, next, now)).starving
  {
    assert HoldsOffAll(nodes, config, bases, next, now, k);
    StarvingWinsIff(nodes, config, bases, next, now);
  }

  /** And with every boost on the other node a lead of 900 is where the guard gives way. */
  lemma GuardGivesWay(high: Node, low: Node, config: Config, bases: set<string>, now: real)
    requires Starves(low, now) && !Starves(high, now)
    requires config.isReview(high.title) && !config.isReview(low.title)
    requires BaseOf(config.pickModel(high)) in bases && BaseOf(config.pickModel(low)) !in bases
    requires low.workspaceId != high.workspaceId
    ensures Winner(ScoreAll([high, low], config, bases, high.workspaceId, now)).starving <==>
              (high.priority - low.priority < 900
               || (high.priority - low.priority == 900 && low.createdAt < high.createdAt))
  {
    var nodes := [high, low];
    StarvingWinsIff(nodes, config, bases, high.workspaceId, now);
    assert HoldsOffAll(nodes, config, bases, high.workspaceId, now, 1)
           <==> HoldsOff(nodes, config, bases, high.workspaceId, 1, 0);
  }

  /** Acquiring what a non-starving decision asked for, in the same state, evicts nothing. */
  lemma ScheduledNodeEvictsNothing(gpu: Gpu.GpuState, config: Config, c: Candidate, clock: int)
    requires Gpu.Inv(gpu) && Admits(gpu, config, c) && !c.starving
    ensures var d := Decide(config, c);
            var e := Gpu.Acquire(gpu, d.modelId, None, d.vramMb, clock);
            e.outcome.Granted? && e.evicted == [] && |e.state.loaded| >= |gpu.loaded|
  {
    var d := Decide(config, c);
    Gpu.NoEvictionWhenItFits(gpu, d.modelId, None, d.vramMb, clock);
  }

  /** A starving decision is granted at once as well, unless it can never fit on the card. */
  lemma StarvingNodeGranted(gpu: Gpu.GpuState, config: Config, c: Candidate, clock: int)
    requires Gpu.Inv(gpu) && c.starving
    ensures var d := Decide(config, c);
            && Admits(gpu, config, c)
            && (Gpu.Acquire(gpu, d.modelId, None, d.vramMb, clock).outcome.Granted? <==> d.vramMb <= gpu.totalMb)
  {
    var d := Decide(config, c);
    Gpu.AcquireSucceedsAtOnce(gpu, d.modelId, None, d.vramMb, clock);
  }

  lemma {:induction false} BaseOfPrefix(a: string, b: string)
    requires ':' in a
    ensures BaseOf(a + b) == BaseOf(a)
  {
    if a[0] != ':' {
      assert (a + b)[1..] == a[1..] + b;
      BaseOfPrefix(a[1..], b);
    }
  }

  lemma {:induction false} BaseIgnoresTrailingColon(a: string)
    ensures BaseOf(a + ":") == BaseOf(a)
  {
    if a == "" {
      assert a + ":" == ":";
    } else {
      assert (a + ":")[1..] == a[1..] + ":";
      BaseIgnoresTrailingColon(a[1..]);
    }
  }

  /** Whatever the GPU manager would serve from a loaded model gets the same-base boost. */
  lemma ReuseIsBoosted(gpu: Gpu.GpuState, modelId: string, loraId: Option<string>)
    requires Gpu.Reuses(gpu, modelId, loraId)
    ensures BaseOf(modelId) in LoadedBases(gpu.loaded)
  {
    var key := Gpu.KeyOf(modelId, loraId);
    var i := Gpu.FindKey(gpu.loaded, key);
    var e := if i < |gpu.loaded| then gpu.loaded[i] else gpu.loaded[Gpu.FindBase(gpu.loaded, modelId, key)];
    var head := modelId + ":";
    assert head <= e.key;
    assert e.key == head + e.key[|head|..];
    assert head[|modelId|] == ':';
    BaseOfPrefix(head, e.key[|head|..]);
    BaseIgnoresTrailingColon(modelId);
    assert e in gpu.loaded;
  }

  /** `family:tag`, with no further colon. */
  predicate IsTagged(modelId: string) {
    var family := BaseOf(modelId);
    |family| < |modelId| && ':' !in modelId[|family| + 1..]
  }

  lemma {:induction false} BaseIsPrefix(a: string)
    ensures BaseOf(a) <= a && ':' !in BaseOf(a)
    ensures |BaseOf(a)| < |a| ==> a[|BaseOf(a)|] == ':'
  {
    if a != "" && a[0] != ':' {
      BaseIsPrefix(a[1..]);
      assert a == [a[0]] + a[1..];
    }
  }

  lemma TaggedParts(modelId: string) returns (family: string, tag: string)
    requires IsTagged(modelId)
    ensures modelId == family + ":" + tag && family == BaseOf(modelId) && ':' !in tag && ':' in modelId
  {
    BaseIsPrefix(modelId);
    family := BaseOf(modelId);
    tag := modelId[|family| + 1..];
    assert modelId[|family|] == ':';
    assert modelId == modelId[..|family|] + [modelId[|family|]] + tag;
  }

  /** A key that starts with one tagged model id and a colon is a key of that very model. */
  lemma PrefixIsModel(wanted: string, owner: string, adapter: string)
    requires IsTagged(wanted) && IsTagged(owner) && wanted + ":" <= owner + ":" + adapter
    ensures wanted == owner
  {
    var f, t := TaggedParts(wanted);
    var g, u := TaggedParts(owner);
    var key := owner + ":" + adapter;
    var rest := key[|wanted + ":"|..];
    assert key == owner + (":" + adapter) && key == wanted + (":" + rest);
    BaseOfPrefix(owner, ":" + adapter);
    BaseOfPrefix(wanted, ":" + rest);
    var head := f + ":";
    assert key == head + (u + ":" + adapter);
    assert wanted + ":" == head + t + ":" && key == head + u + ":" + adapter;
    TagEndsAtColon(head, t, u, adapter);
  }

  /** Every loaded slot is of a tagged model and under its own key. */
  ghost predicate Tagged(loaded: seq<Gpu.Entry>) {
    Gpu.Coherent(loaded) && forall e :: e in loaded ==> IsTagged(e.slot.modelId)
  }

  lemma ReusesByPrefix(gpu: Gpu.GpuState, modelId: string, loraId: Option<string>)
    ensures Gpu.Reuses(gpu, modelId, loraId) <==> exists e :: e in gpu.loaded && modelId + ":" <= e.key
  {
    var key := Gpu.KeyOf(modelId, loraId);
    assert modelId + ":" <= key;
    var i, j := Gpu.FindKey(gpu.loaded, key), Gpu.FindBase(gpu.loaded, modelId, key);
    if Gpu.Reuses(gpu, modelId, loraId) {
      var e := if i < |gpu.loaded| then gpu.loaded[i] else gpu.loaded[j];
      assert e in gpu.loaded && modelId + ":" <= e.key;
    }
    if e :| e in gpu.loaded && modelId + ":" <= e.key {
      var k :| 0 <= k < |gpu.loaded| && gpu.loaded[k] == e;
    }
  }

  lemma KeyOfTagged(e: Gpu.Entry, modelId: string)
    requires e.key == Gpu.KeyOf(e.slot.modelId, e.slot.loraId) && IsTagged(e.slot.modelId) && IsTagged(modelId)
    ensures BaseOf(e.key) == BaseOf(e.slot.modelId)
    ensures modelId + ":" <= e.key <==> e.slot.modelId == modelId
  {
    var adapter := Gpu.Adapter(e.slot.loraId);
    var f, t := TaggedParts(e.slot.modelId);
    assert e.key == e.slot.modelId + (":" + adapter);
    BaseOfPrefix(e.slot.modelId, ":" + adapter);
    if modelId + ":" <= e.key {
      PrefixIsModel(modelId, e.slot.modelId, adapter);
    }
  }

  /** With tagged models loaded a request is boosted exactly when some loaded model is of its family. */
  lemma BoostIff(gpu: Gpu.GpuState, modelId: string)
    requires IsTagged(modelId) && Tagged(gpu.loaded)
    ensures BaseOf(modelId) in LoadedBases(gpu.loaded) <==>
              exists e :: e in gpu.loaded && BaseOf(e.slot.modelId) == BaseOf(modelId)
  {
    forall e | e in gpu.loaded ensures BaseOf(e.key) == BaseOf(e.slot.modelId) {
      KeyOfTagged(e, modelId);
    }
  }

  /** And its model can be reused exactly when that very model is loaded, with whichever adapter. */
  lemma ReuseIff(gpu: Gpu.GpuState, modelId: string, loraId: Option<string>)
    requires IsTagged(modelId) && Tagged(gpu.loaded)
    ensures Gpu.Reuses(gpu, modelId, loraId) <==> exists e :: e in gpu.loaded && e.slot.modelId == modelId
  {
    forall e | e in gpu.loaded ensures modelId + ":" <= e.key <==> e.slot.modelId == modelId {
      KeyOfTagged(e, modelId);
    }
    ReusesByPrefix(gpu, modelId, loraId);
  }

  /** With tagged models loaded a request is served by its own model or by a new one. */
  lemma TaggedReuse(gpu: Gpu.GpuState, modelId: string, loraId: Option<string>)
    requires IsTagged(modelId) && Tagged(gpu.loaded) && Gpu.Reuses(gpu, modelId, loraId)
    ensures Gpu.ReusedModel(gpu, modelId, loraId) == modelId
  {
    var key := Gpu.KeyOf(modelId, loraId);
    var i := Gpu.FindKey(gpu.loaded, key);
    var e := if i < |gpu.loaded| then gpu.loaded[i] else gpu.loaded[Gpu.FindBase(gpu.loaded, modelId, key)];
    assert e in gpu.loaded && modelId + ":" <= e.key;
    PrefixIsModel(modelId, e.slot.modelId, Gpu.Adapter(e.slot.loraId));
  }

  lemma TaggedAfterEviction(gpu: Gpu.GpuState, mb: int)
    requires Tagged(gpu.loaded)
    ensures Tagged(Gpu.EvictLru(gpu, mb).loaded)
  {
    forall e | e in Gpu.EvictLru(gpu, mb).loaded ensures e in gpu.loaded {
      Gpu.WithoutCounts(gpu.loaded, Gpu.Keys(Gpu.Victims(gpu, mb)), e);
    }
  }

  lemma TaggedAfterReuse(gpu: Gpu.GpuState, modelId: string, loraId: Option<string>, mb: int, now: int)
    requires IsTagged(modelId) && Tagged(gpu.loaded) && Gpu.Reuses(gpu, modelId, loraId) && mb <= gpu.totalMb
    ensures Tagged(Gpu.Acquire(gpu, modelId, loraId, mb, now).state.loaded)
  {
    var key := Gpu.KeyOf(modelId, loraId);
    var i, j := Gpu.FindKey(gpu.loaded, key), Gpu.FindBase(gpu.loaded, modelId, key);
    TaggedReuse(gpu, modelId, loraId);
    if i < |gpu.loaded| {
      assert gpu.loaded[i] in gpu.loaded;
      forall e | e in Gpu.Touch(gpu.loaded, i, now)
        ensures e.key == Gpu.KeyOf(e.slot.modelId, e.slot.loraId) && IsTagged(e.slot.modelId)
      {
        if e !in gpu.loaded {
          assert e == Gpu.Touch(gpu.loaded, i, now)[i];
        }
      }
    } else {
      Gpu.CoherentAfterRekey(gpu.loaded, j, key, loraId, now);
      forall e | e in Gpu.Rekey(gpu.loaded, j, key, loraId, now) ensures IsTagged(e.slot.modelId) {
        assert e in gpu.loaded || e.slot.modelId == modelId;
      }
    }
  }

  lemma TaggedAfterStep(gpu: Gpu.GpuState, op: Gpu.Op)
    requires Tagged(gpu.loaded) && (op.DoAcquire? ==> IsTagged(op.modelId))
    ensures Tagged(Gpu.Step(gpu, op).loaded)
  {
    match op
    case DoAcquire(modelId, loraId, mb, now) =>
      if mb <= gpu.totalMb {
        if Gpu.Reuses(gpu, modelId, loraId) {
          TaggedAfterReuse(gpu, modelId, loraId, mb, now);
        } else {
          TaggedAfterEviction(gpu, mb);
        }
      }
    case DoRelease(_) =>
    case DoEvict(mb) => TaggedAfterEviction(gpu, mb);
  }

  lemma {:induction false} RunKeepsTagged(gpu: Gpu.GpuState, ops: seq<Gpu.Op>)
    requires Tagged(gpu.loaded) && forall op :: op in ops && op.DoAcquire? ==> IsTagged(op.modelId)
    ensures Tagged(Gpu.Run(gpu, ops).loaded)
    decreases ops
  {
    if ops != [] {
      assert ops[0] in ops;
      TaggedAfterStep(gpu, ops[0]);
      RunKeepsTagged(Gpu.Step(gpu, ops[0]), ops[1..]);
    }
  }

  /** While all models asked for are tagged, no request is ever served by another model. */
  lemma TaggedModelsServeThemselves(totalMb: nat, ops: seq<Gpu.Op>, modelId: string, loraId: Option<string>)
    requires IsTagged(modelId) && forall op :: op in ops && op.DoAcquire? ==> IsTagged(op.modelId)
    ensures var s := Gpu.Run(Gpu.GpuState(totalMb, [], 0, 0), ops);
            && (Gpu.Reuses(s, modelId, loraId) ==> Gpu.ReusedModel(s, modelId, loraId) == modelId)
            && (Gpu.Reuses(s, modelId, loraId) <==> exists e :: e in s.loaded && e.slot.modelId == modelId)
  {
    var s0 := Gpu.GpuState(totalMb, [], 0, 0);
    RunKeepsTagged(s0, ops);
    var s := Gpu.Run(s0, ops);
    ReuseIff(s, modelId, loraId);
    if Gpu.Reuses(s, modelId, loraId) {
      TaggedReuse(s, modelId, loraId);
    }
  }

  /** The converse fails: tags of one family always share the boost, but only equal tags share a slot. */
  lemma BoostWithoutReuse(family: string, loadedTag: string, wantedTag: string, slot: Gpu.ModelSlot)
    requires ':' !in loadedTag && ':' !in wantedTag
    ensures var e := Gpu.Entry(Gpu.KeyOf(family + ":" + loadedTag, None), slot);
            var gpu := Gpu.GpuState(10, [e], 5, 0);
            var wanted := family + ":" + wantedTag;
            && BaseOf(wanted) in LoadedBases(gpu.loaded)
            && (Gpu.Reuses(gpu, wanted, None) <==> wantedTag == loadedTag)
  {
    var head := family + ":";
    var key := Gpu.KeyOf(head + loadedTag, None);
    var e := Gpu.Entry(key, slot);
    var wanted := head + wantedTag;
    var base := wanted + ":";
    assert key == head + (loadedTag + ":_");
    BaseOfPrefix(head, loadedTag + ":_");
    BaseOfPrefix(head, wantedTag);
    assert e in [e];
    if base <= key && wantedTag != loadedTag {
      TagEndsAtColon(head, wantedTag, loadedTag, "_");
    }
    assert base <= Gpu.KeyOf(wanted, None);
  }

  lemma {:induction false} BaseOfColonFree(tag: string)
    requires ':' !in tag
    ensures BaseOf(tag) == tag
  {
    if tag != "" {
      BaseOfColonFree(tag[1..]);
    }
  }

  lemma TagEndsAtColon(head: string, a: string, b: string, adapter: string)
    requires ':' !in a && ':' !in b
    requires head + a + ":" <= head + b + ":" + adapter
    ensures a == b
  {
    var p, k := a + ":", b + ":" + adapter;
    assert (head + a + ":")[|head|..] == p && (head + b + ":" + adapter)[|head|..] == k;
    assert p <= k;
    assert k == p + k[|p|..] && k == (b + ":") + adapter;
    assert p[|a|] == ':' && (b + ":")[|b|] == ':';
    BaseOfPrefix(p, k[|p|..]);
    BaseOfPrefix(b + ":", adapter);
    BaseIgnoresTrailingColon(a);
    BaseIgnoresTrailingColon(b);
    BaseOfColonFree(a);
    BaseOfColonFree(b);
  }

  /** Where a workspace first occurs, or the length when it does not. */
  function FirstOf(nodes: seq<Node>, w: string): (i: nat)
    ensures i <= |nodes| && (i < |nodes| ==> nodes[i].workspaceId == w)
    ensures forall j :: 0 <= j < i ==> nodes[j].workspaceId != w
  {
    if nodes == [] || nodes[0].workspaceId == w then 0 else 1 + FirstOf(nodes[1..], w)
  }

  lemma FirstOfIs(nodes: seq<Node>, w: string, i: nat)
    requires i < |nodes| && nodes[i].workspaceId == w && forall j :: 0 <= j < i ==> nodes[j].workspaceId != w
    ensures FirstOf(nodes, w) == i
  {
  }

  lemma FirstOfInPrefix(nodes: seq<Node>, n: nat, w: string)
    requires n <= |nodes| && FirstOf(nodes[..n], w) < n
    ensures FirstOf(nodes, w) == FirstOf(nodes[..n], w)
  {
    var i := FirstOf(nodes[..n], w);
    forall j | 0 <= j < i ensures nodes[j].workspaceId != w {
      assert nodes[..n][j].workspaceId != w;
    }
    FirstOfIs(nodes, w, i);
  }

  ghost predicate InOrder(nodes: seq<Node>, ws: seq<string>) {
    && (forall w :: w in ws ==> FirstOf(nodes, w) < |nodes|)
    && forall i, j :: 0 <= i < j < |ws| ==> FirstOf(nodes, ws[i]) < FirstOf(nodes, ws[j])
  }

  lemma FirstOfNew(nodes: seq<Node>, before: seq<string>)
    requires nodes != [] && forall w :: w in before <==> w in Workspaces(nodes[..|nodes| - 1])
    requires nodes[|nodes| - 1].workspaceId !in before
    ensures FirstOf(nodes, nodes[|nodes| - 1].workspaceId) == |nodes| - 1
  {
    var n := |nodes| - 1;
    forall j | 0 <= j < n ensures nodes[j].workspaceId != nodes[n].workspaceId {
      assert nodes[j] in nodes[..n];
      assert nodes[j].workspaceId in Workspaces(nodes[..n]);
    }
    FirstOfIs(nodes, nodes[n].workspaceId, n);
  }

  lemma InOrderInLonger(nodes: seq<Node>, n: nat, ws: seq<string>)
    requires n <= |nodes| && InOrder(nodes[..n], ws)
    ensures InOrder(nodes, ws) && forall w :: w in ws ==> FirstOf(nodes, w) < n
  {
    forall w | w in ws ensures FirstOf(nodes, w) == FirstOf(nodes[..n], w) < n {
      FirstOfInPrefix(nodes, n, w);
    }
  }

  /** Exactly the workspaces that occur, once each, in the order in which they first occur. */
  lemma {:induction false} FirstSeenInOrder(nodes: seq<Node>)
    ensures NoRepeats(FirstSeen(nodes)) && forall w :: w in FirstSeen(nodes) <==> w in Workspaces(nodes)
    ensures InOrder(nodes, FirstSeen(nodes))
  {
    if nodes != [] {
      var n := |nodes| - 1;
      var before, last := FirstSeen(nodes[..n]), nodes[n].workspaceId;
      FirstSeenInOrder(nodes[..n]);
      InOrderInLonger(nodes, n, before);
      if last !in before {
        FirstOfNew(nodes, before);
      }
    }
  }

  // ------------------------------------------------------------- round robin

  /** The same workspaces in two orders: as first seen, and as the set iterates. */
  ghost predicate Reordered(ws: seq<string>, setOrder: seq<string>) {
    ws != [] && NoRepeats(ws) && NoRepeats(setOrder) && forall w :: w in ws <==> w in setOrder
  }

  function Members(ws: seq<string>): set<string> { set w | w in ws }

  lemma {:induction false} LengthOfDistinct(ws: seq<string>)
    requires NoRepeats(ws)
    ensures |ws| == |Members(ws)|
  {
    if ws != [] {
      var n := |ws| - 1;
      LengthOfDistinct(ws[..n]);
      assert ws == ws[..n] + [ws[n]];
      assert Members(ws) == Members(ws[..n]) + {ws[n]};
    }
  }

  lemma SameLength(ws: seq<string>, setOrder: seq<string>)
    requires Reordered(ws, setOrder)
    ensures |ws| == |setOrder|
  {
    LengthOfDistinct(ws);
    LengthOfDistinct(setOrder);
    assert Members(ws) == Members(setOrder);
  }

  /** The workspace favoured after `favoured` has been served. */
  function Next(ws: seq<string>, setOrder: seq<string>, favoured: string): string
    requires favoured in ws && setOrder != []
  {
    if favoured == "" then favoured else Favoured(setOrder, Advance(ws, favoured))
  }

  /** The workspace behind position `i`, around the end of the list. */
  function Behind(ws: seq<string>, i: nat): string
    requires i < |ws|
  {
    if i + 1 == |ws| then ws[0] else ws[i + 1]
  }

  ghost predicate RoundRobin(ws: seq<string>, setOrder: seq<string>)
    requires setOrder != []
  {
    forall i :: 0 <= i < |ws| ==> Next(ws, setOrder, ws[i]) == Behind(ws, i)
  }

  lemma FavouredInRange(setOrder: seq<string>, cursor: nat)
    requires cursor < |setOrder|
    ensures Favoured(setOrder, cursor) == setOrder[cursor]
  {
  }

  lemma NextOf(ws: seq<string>, setOrder: seq<string>, i: nat)
    requires NoRepeats(ws) && |ws| == |setOrder| && i < |ws| && ws[i] != ""
    ensures Next(ws, setOrder, ws[i]) == Behind(setOrder, i)
  {
    IndexIsPosition(ws, i);
    AdvanceIs(ws, ws[i], i);
    FavouredInRange(setOrder, if i + 1 == |ws| then 0 else i + 1);
  }

  lemma AdvanceIs(ws: seq<string>, served: string, i: nat)
    requires served in ws && IndexOf(ws, served) == i
    ensures Advance(ws, served) == if i + 1 == |ws| then 0 else i + 1
  {
    WrapsAround(i, |ws|);
  }

  lemma {:induction false} SameBehind(ws: seq<string>, setOrder: seq<string>)
    requires |ws| == |setOrder| && forall i :: 0 <= i < |ws| ==> Behind(ws, i) == Behind(setOrder, i)
    ensures ws == setOrder
  {
    forall k | 0 <= k < |ws| ensures setOrder[k] == ws[k] {
      var i := if k == 0 then |ws| - 1 else k - 1;
      assert Behind(ws, i) == Behind(setOrder, i);
    }
  }

  lemma UnnamedStays(ws: seq<string>, setOrder: seq<string>, i: nat)
    requires NoRepeats(ws) && setOrder != [] && i < |ws| && ws[i] == ""
    ensures Next(ws, setOrder, ws[i]) == Behind(ws, i) <==> |ws| == 1
  {
  }

  /**
    Serving the favoured workspace, whichever it is, passes the favour on to the one first seen after
    it exactly when the set iterates in first-seen order and no workspace among others has the empty name.
   */
  lemma RoundRobinIff(ws: seq<string>, setOrder: seq<string>)
    requires Reordered(ws, setOrder) && setOrder != []
    ensures RoundRobin(ws, setOrder) <==> setOrder == ws && ("" in ws ==> |ws| == 1)
  {
    SameLength(ws, setOrder);
    if "" in ws {
      var i :| 0 <= i < |ws| && ws[i] == "";
      UnnamedStays(ws, setOrder, i);
      if |ws| == 1 {
        assert setOrder[0] in setOrder && setOrder == ws;
      }
    } else {
      forall i | 0 <= i < |ws| ensures Next(ws, setOrder, ws[i]) == Behind(setOrder, i) {
        NextOf(ws, setOrder, i);
      }
      if RoundRobin(ws, setOrder) {
        SameBehind(ws, setOrder);
      }
    }
  }

  /** The cursor after serving the favoured workspace `rounds` times in a row. */
  function CursorAfter(ws: seq<string>, setOrder: seq<string>, cursor: int, rounds: nat): int
    requires ws != [] && setOrder != [] && forall w :: w in setOrder ==> w in ws
    decreases rounds
  {
    if rounds == 0 then cursor
    else CursorAfter(ws, setOrder, Serve(ws, cursor, Favoured(setOrder, cursor)), rounds - 1)
  }

  /** Who is favoured after that many rounds. */
  function FavouredAfter(ws: seq<string>, setOrder: seq<string>, cursor: int, rounds: nat): (w: string)
    requires ws != [] && setOrder != [] && forall w :: w in setOrder ==> w in ws
    ensures w in setOrder
  {
    Favoured(setOrder, CursorAfter(ws, setOrder, cursor, rounds))
  }

  lemma {:induction false} OneMoreRound(ws: seq<string>, setOrder: seq<string>, cursor: int, rounds: nat)
    requires ws != [] && setOrder != [] && forall w :: w in setOrder ==> w in ws
    ensures FavouredAfter(ws, setOrder, cursor, rounds + 1)
            == Next(ws, setOrder, FavouredAfter(ws, setOrder, cursor, rounds))
    decreases rounds
  {
    if rounds == 0 {
      assert CursorAfter(ws, setOrder, cursor, 1) == Serve(ws, cursor, Favoured(setOrder, cursor));
    } else {
      OneMoreRound(ws, setOrder, Serve(ws, cursor, Favoured(setOrder, cursor)), rounds - 1);
    }
  }

  /** A set of workspaces that the favour does not leave. */
  ghost predicate Closed(ws: seq<string>, setOrder: seq<string>, s: set<string>)
    requires ws != [] && setOrder != [] && forall w :: w in setOrder ==> w in ws
  {
    forall w :: w in s ==> w in setOrder && Next(ws, setOrder, w) in s
  }

  lemma {:induction false} NeverLeaves(ws: seq<string>, setOrder: seq<string>, cursor: int, s: set<string>, rounds: nat)
    requires ws != [] && setOrder != [] && forall w :: w in setOrder ==> w in ws
    requires Closed(ws, setOrder, s) && Favoured(setOrder, cursor) in s
    ensures FavouredAfter(ws, setOrder, cursor, rounds) in s
    decreases rounds
  {
    if rounds > 0 {
      NeverLeaves(ws, setOrder, cursor, s, rounds - 1);
      OneMoreRound(ws, setOrder, cursor, rounds - 1);
    }
  }

  /** One workspace stays favoured in every round exactly when the favour comes back to it at once. */
  lemma StuckIff(ws: seq<string>, setOrder: seq<string>, cursor: int)
    requires ws != [] && setOrder != [] && forall w :: w in setOrder ==> w in ws
    ensures (forall rounds: nat :: FavouredAfter(ws, setOrder, cursor, rounds) == Favoured(setOrder, cursor))
            <==> Next(ws, setOrder, Favoured(setOrder, cursor)) == Favoured(setOrder, cursor)
  {
    var w := Favoured(setOrder, cursor);
    assert FavouredAfter(ws, setOrder, cursor, 0) == w;
    OneMoreRound(ws, setOrder, cursor, 0);
    if Next(ws, setOrder, w) == w {
      forall rounds: nat ensures FavouredAfter(ws, setOrder, cursor, rounds) == w {
        NeverLeaves(ws, setOrder, cursor, {w}, rounds);
      }
    }
  }

  /** This workspace is favoured in some round. */
  ghost predicate GetsFavour(ws: seq<string>, setOrder: seq<string>, cursor: int, v: string)
    requires ws != [] && setOrder != [] && forall w :: w in setOrder ==> w in ws
  {
    exists rounds: nat :: FavouredAfter(ws, setOrder, cursor, rounds) == v
  }

  /** Who is favoured in the first `n` rounds, in order. */
  function Trace(ws: seq<string>, setOrder: seq<string>, cursor: int, n: nat): (trace: seq<string>)
    requires ws != [] && setOrder != [] && forall w :: w in setOrder ==> w in ws
    ensures |trace| == n && forall r :: 0 <= r < n ==> trace[r] == FavouredAfter(ws, setOrder, cursor, r)
  {
    seq(n, r requires 0 <= r < n => FavouredAfter(ws, setOrder, cursor, r))
  }

  lemma {:induction false} MembersAtMost(ws: seq<string>)
    ensures |Members(ws)| <= |ws|
    ensures !NoRepeats(ws) ==> |Members(ws)| < |ws|
  {
    if ws != [] {
      var n := |ws| - 1;
      assert ws == ws[..n] + [ws[n]];
      MembersAtMost(ws[..n]);
      assert Members(ws) == Members(ws[..n]) + {ws[n]};
      if ws[n] in ws[..n] {
        assert Members(ws) == Members(ws[..n]);
      }
    }
  }

  lemma SubsetSizes(a: set<string>, b: set<string>)
    requires a <= b
    ensures |a| <= |b| && (|a| == |b| ==> a == b)
  {
    assert b == a + (b - a);
    if |a| == |b| {
      assert |b - a| == 0;
    }
  }

  lemma TraceInOrder(ws: seq<string>, setOrder: seq<string>, cursor: int, n: nat)
    requires ws != [] && setOrder != [] && forall w :: w in setOrder ==> w in ws
    ensures Members(Trace(ws, setOrder, cursor, n)) <= Members(setOrder)
  {
    forall v | v in Trace(ws, setOrder, cursor, n) ensures v in setOrder {
      var r :| 0 <= r < n && Trace(ws, setOrder, cursor, n)[r] == v;
    }
  }

  /** Once somebody is favoured again, nobody new follows. */
  lemma RepeatClosesTrace(ws: seq<string>, setOrder: seq<string>, cursor: int, i: nat, j: nat, rounds: nat)
    requires ws != [] && setOrder != [] && forall w :: w in setOrder ==> w in ws
    requires i < j && FavouredAfter(ws, setOrder, cursor, i) == FavouredAfter(ws, setOrder, cursor, j)
    ensures FavouredAfter(ws, setOrder, cursor, rounds) in Trace(ws, setOrder, cursor, j)
  {
    var trace := Trace(ws, setOrder, cursor, j);
    forall w | w in trace ensures w in setOrder && Next(ws, setOrder, w) in trace {
      var r :| 0 <= r < j && trace[r] == w;
      OneMoreRound(ws, setOrder, cursor, r);
      assert Next(ws, setOrder, w) == if r + 1 < j then trace[r + 1] else trace[i];
    }
    assert trace[0] == Favoured(setOrder, cursor);
    NeverLeaves(ws, setOrder, cursor, Members(trace), rounds);
  }

  /** Who is not favoured within as many rounds as there are workspaces is never favoured. */
  lemma PassedOverIff(ws: seq<string>, setOrder: seq<string>, cursor: int, v: string)
    requires ws != [] && setOrder != [] && forall w :: w in setOrder ==> w in ws
    ensures GetsFavour(ws, setOrder, cursor, v) <==> v in Trace(ws, setOrder, cursor, |setOrder|)
  {
    var n := |setOrder|;
    if v in Trace(ws, setOrder, cursor, n) {
      var r :| 0 <= r < n && Trace(ws, setOrder, cursor, n)[r] == v;
      assert FavouredAfter(ws, setOrder, cursor, r) == v;
    }
    if GetsFavour(ws, setOrder, cursor, v) {
      var i, j := SomeRepeat(ws, setOrder, cursor);
      var rounds: nat :| FavouredAfter(ws, setOrder, cursor, rounds) == v;
      RepeatClosesTrace(ws, setOrder, cursor, i, j, rounds);
      var r :| 0 <= r < j && Trace(ws, setOrder, cursor, j)[r] == v;
      assert Trace(ws, setOrder, cursor, n)[r] == v;
    }
  }

  lemma SomeRepeat(ws: seq<string>, setOrder: seq<string>, cursor: int) returns (i: nat, j: nat)
    requires ws != [] && setOrder != [] && forall w :: w in setOrder ==> w in ws
    ensures i < j <= |setOrder|
    ensures FavouredAfter(ws, setOrder, cursor, i) == FavouredAfter(ws, setOrder, cursor, j)
  {
    var trace := Trace(ws, setOrder, cursor, |setOrder| + 1);
    TraceInOrder(ws, setOrder, cursor, |trace|);
    SubsetSizes(Members(trace), Members(setOrder));
    MembersAtMost(setOrder);
    if NoRepeats(trace) {
      LengthOfDistinct(trace);
      assert false;
    }
    i, j :| 0 <= i < j < |trace| && trace[i] == trace[j];
  }

  /** Two workspaces never hand the favour to the same one. */
  lemma NextIsInjective(ws: seq<string>, setOrder: seq<string>, a: string, b: string)
    requires Reordered(ws, setOrder) && "" !in ws && a in ws && b in ws && setOrder != []
    requires Next(ws, setOrder, a) == Next(ws, setOrder, b)
    ensures a == b
  {
    SameLength(ws, setOrder);
    var i :| 0 <= i < |ws| && ws[i] == a;
    var j :| 0 <= j < |ws| && ws[j] == b;
    NextOf(ws, setOrder, i);
    NextOf(ws, setOrder, j);
  }

  lemma RepeatOneEarlier(ws: seq<string>, setOrder: seq<string>, cursor: int, i: nat, j: nat)
    requires Reordered(ws, setOrder) && "" !in ws && setOrder != []
    requires FavouredAfter(ws, setOrder, cursor, i + 1) == FavouredAfter(ws, setOrder, cursor, j + 1)
    ensures FavouredAfter(ws, setOrder, cursor, i) == FavouredAfter(ws, setOrder, cursor, j)
  {
    OneMoreRound(ws, setOrder, cursor, i);
    OneMoreRound(ws, setOrder, cursor, j);
    NextIsInjective(ws, setOrder, FavouredAfter(ws, setOrder, cursor, i), FavouredAfter(ws, setOrder, cursor, j));
  }

  /** So the favour can only come round to somebody by coming round to its start. */
  lemma {:induction false} RepeatReachesStart(ws: seq<string>, setOrder: seq<string>, cursor: int, i: nat, j: nat)
    requires Reordered(ws, setOrder) && "" !in ws && setOrder != []
    requires i <= j && FavouredAfter(ws, setOrder, cursor, i) == FavouredAfter(ws, setOrder, cursor, j)
    ensures FavouredAfter(ws, setOrder, cursor, j - i) == Favoured(setOrder, cursor)
    decreases i
  {
    if i > 0 {
      RepeatOneEarlier(ws, setOrder, cursor, i - 1, j - 1);
      RepeatReachesStart(ws, setOrder, cursor, i - 1, j - 1);
    }
  }

  /** The favour is back where it started after `r` rounds. */
  predicate Returns(ws: seq<string>, setOrder: seq<string>, cursor: int, r: nat)
    requires ws != [] && setOrder != [] && forall w :: w in setOrder ==> w in ws
  {
    FavouredAfter(ws, setOrder, cursor, r) == Favoured(setOrder, cursor)
  }

  lemma RepeatIsReturn(ws: seq<string>, setOrder: seq<string>, cursor: int, i: nat, j: nat)
    requires Reordered(ws, setOrder) && "" !in ws && setOrder != [] && i <= j
    ensures FavouredAfter(ws, setOrder, cursor, i) == FavouredAfter(ws, setOrder, cursor, j) ==>
              Returns(ws, setOrder, cursor, j - i)
  {
    if FavouredAfter(ws, setOrder, cursor, i) == FavouredAfter(ws, setOrder, cursor, j) {
      RepeatReachesStart(ws, setOrder, cursor, i, j);
    }
  }

  lemma EarlyReturnLeavesOut(ws: seq<string>, setOrder: seq<string>, cursor: int, r: nat)
    requires Reordered(ws, setOrder) && setOrder != [] && 0 < r < |ws| && Returns(ws, setOrder, cursor, r)
    ensures exists v :: v in ws && !GetsFavour(ws, setOrder, cursor, v)
  {
    var trace := Trace(ws, setOrder, cursor, r);
    LengthOfDistinct(ws);
    MembersAtMost(trace);
    assert Members(ws) != Members(trace);
    if v :| v in ws && v !in trace {
      forall rounds: nat ensures FavouredAfter(ws, setOrder, cursor, rounds) != v {
        RepeatClosesTrace(ws, setOrder, cursor, 0, r, rounds);
      }
    } else {
      assert Members(ws) <= Members(trace);
      SubsetSizes(Members(ws), Members(trace));
      assert false;
    }
  }

  lemma LateReturnVisitsAll(ws: seq<string>, setOrder: seq<string>, cursor: int, v: string)
    requires Reordered(ws, setOrder) && "" !in ws && setOrder != [] && v in ws
    requires forall r: nat :: 0 < r < |ws| ==> !Returns(ws, setOrder, cursor, r)
    ensures GetsFavour(ws, setOrder, cursor, v)
  {
    var trace := Trace(ws, setOrder, cursor, |ws|);
    forall i, j | 0 <= i < j < |ws| ensures trace[i] != trace[j] {
      RepeatIsReturn(ws, setOrder, cursor, i, j);
    }
    SameLength(ws, setOrder);
    LengthOfDistinct(trace);
    LengthOfDistinct(setOrder);
    TraceInOrder(ws, setOrder, cursor, |ws|);
    SubsetSizes(Members(trace), Members(setOrder));
    assert v in Members(trace);
    var r :| 0 <= r < |ws| && trace[r] == v;
  }

  /** Everyone is favoured sooner or later exactly when the favour does not come back before that many rounds. */
  lemma EveryoneFavouredIff(ws: seq<string>, setOrder: seq<string>, cursor: int)
    requires Reordered(ws, setOrder) && "" !in ws && setOrder != []
    ensures (forall v :: v in ws ==> GetsFavour(ws, setOrder, cursor, v))
            <==> forall r: nat :: 0 < r < |ws| ==> !Returns(ws, setOrder, cursor, r)
  {
    if r: nat :| 0 < r < |ws| && Returns(ws, setOrder, cursor, r) {
      EarlyReturnLeavesOut(ws, setOrder, cursor, r);
    } else {
      forall v | v in ws ensures GetsFavour(ws, setOrder, cursor, v) {
        LateReturnVisitsAll(ws, setOrder, cursor, v);
      }
    }
  }

  lemma IndexIsPosition(ws: seq<string>, i: nat)
    requires NoRepeats(ws) && i < |ws|
    ensures IndexOf(ws, ws[i]) == i
  {
  }

  lemma AdvanceFromFavoured(ws: seq<string>, cursor: int)
    requires ws != [] && NoRepeats(ws)
    ensures Favoured(ws, cursor) in ws && Advance(ws, Favoured(ws, cursor)) == (cursor % |ws| + 1) % |ws|
  {
    IndexIsPosition(ws, cursor % |ws|);
  }

  /** If the set iterates in first-seen order, serving the favoured workspace rotates through all. */
  lemma {:induction false} RotatesWhenOrdersAgree(ws: seq<string>, cursor: int, rounds: nat)
    requires ws != [] && NoRepeats(ws) && "" !in ws
    ensures FavouredAfter(ws, ws, cursor, rounds) == ws[(cursor + rounds) % |ws|]
    decreases rounds
  {
    if rounds > 0 {
      AdvanceFromFavoured(ws, cursor);
      RotatesWhenOrdersAgree(ws, (cursor % |ws| + 1) % |ws|, rounds - 1);
      SameRemainder(|ws|, cursor, rounds);
    }
  }

  lemma SameRemainder(n: nat, cursor: int, rounds: nat)
    requires n > 0 && rounds > 0
    ensures ((cursor % n + 1) % n + (rounds - 1)) % n == (cursor + rounds) % n
  {
    var i := cursor % n;
    var q := cursor / n;
    assert cursor == q * n + i;
    if i + 1 < n {
      assert (i + 1) % n == i + 1;
      ModShift(i + rounds, q, n);
    } else {
      assert (i + 1) % n == 0;
      assert (q + 1) * n == q * n + n;
      ModShift(rounds - 1, q + 1, n);
    }
  }

  lemma ModShift(a: int, q: int, n: nat)
    requires n > 0
    ensures (a + q * n) % n == a % n
  {
    var b := a + q * n;
    assert b == (b / n) * n + b % n;
    assert a == (a / n) * n + a % n;
    var d := b / n - a / n - q;
    assert d * n == a % n - b % n by {
      assert (b / n - a / n - q) * n == (b / n) * n - (a / n) * n - q * n;
    }
    Multiple(d, n);
  }

  lemma Multiple(d: int, n: nat)
    requires n > 0
    ensures d >= 1 ==> d * n >= n
    ensures d <= -1 ==> d * n <= 0 - n
  {
    if d >= 1 {
      assert (d - 1) * n >= 0;
    } else if d <= -1 {
      assert (-d - 1) * n >= 0;
    }
  }

  /** Two workspaces of which the set yields the later one first: that one stays favoured for ever. */
  lemma CursorCanStick(a: string, b: string)
    requires a != b
    ensures Reordered([a, b], [b, a])
    ensures forall rounds: nat :: FavouredAfter([a, b], [b, a], 0, rounds) == b
  {
    var ws := [a, b];
    assert ws[1] == b && IndexOf(ws, b) == 1;
    assert Next(ws, [b, a], b) == b;
    StuckIff(ws, [b, a], 0);
  }
}
