/**
 * Asking every announced window, or the one that owns an entry: the walks, what skipping windows whose process is
 * gone does to them, and the merge of what several windows list.
 */
module Windows {
  import opened Results
  import opened Text

  // ----- The announcements -----

  datatype Endpoint = Endpoint(port: nat, pid: int, startedAt: string)

  /** What looking a process up comes to. */
  datatype Lookup = NoSuchProcess | Exited | Running | Refused

  datatype BrokerReply = BrokerReply(status: nat, body: string)

  /**
   * The machine as a walk finds it: which processes there are, which ports answer the health probe as ours, what each
   * window answers, and the error code the JSON reader finds in a body.
   */
  datatype World = World(
    lookup: int -> Lookup,
    ours: Endpoint -> bool,
    get: Endpoint -> BrokerReply,
    post: Endpoint -> BrokerReply,
    errorCode: string -> string)

  /** Only proof that no such process exists is "gone"; an announcement without a pid of its own never is. */
  predicate PidIsGone(w: World, pid: int) { pid > 0 && (w.lookup(pid).NoSuchProcess? || w.lookup(pid).Exited?) }

  function Live(w: World, endpoints: seq<Endpoint>): seq<Endpoint> {
    Filter((e: Endpoint) => !PidIsGone(w, e.pid), endpoints)
  }

  predicate MeansNotMine(w: World, reply: BrokerReply) {
    reply.status != 200 && w.errorCode(reply.body) == "not_found"
  }

  /** The connections one tool call makes, each call recorded. */
  class BrokerClient {
    const world: World
    var probed: seq<Endpoint>
    var posted: seq<Endpoint>

    constructor (world: World)
      ensures this.world == world && probed == [] && posted == []
    {
      this.world, probed, posted := world, [], [];
    }

    method IsOurBroker(e: Endpoint) returns (ours: bool)
      modifies `probed
      ensures ours == world.ours(e) && probed == old(probed) + [e]
    {
      probed := probed + [e];
      ours := world.ours(e);
    }

    method Post(e: Endpoint) returns (reply: BrokerReply)
      modifies `posted
      ensures reply == world.post(e) && posted == old(posted) + [e]
    {
      posted := posted + [e];
      reply := world.post(e);
    }
  }

  // ----- Reading from every window -----

  datatype WindowRead = WindowRead(bodies: seq<string>, refused: nat)

  function ReadWalk(w: World, endpoints: seq<Endpoint>): WindowRead {
    if endpoints == [] then WindowRead([], 0)
    else
      var e, rest := endpoints[0], ReadWalk(w, endpoints[1..]);
      if !w.ours(e) then rest
      else if w.get(e).status == 200 then rest.(bodies := [w.get(e).body] + rest.bodies)
      else rest.(refused := rest.refused + 1)
  }

  lemma {:induction false} ReadWalkAppend(w: World, a: seq<Endpoint>, b: seq<Endpoint>)
    ensures ReadWalk(w, a + b)
         == WindowRead(ReadWalk(w, a).bodies + ReadWalk(w, b).bodies, ReadWalk(w, a).refused + ReadWalk(w, b).refused)
  {
    if a == [] {
      assert a + b == b;
    } else {
      assert (a + b)[1..] == a[1..] + b;
      ReadWalkAppend(w, a[1..], b);
    }
  }

  method ReadOne(client: BrokerClient, e: Endpoint) returns (body: Option<string>, refused: bool)
    modifies client`probed
    ensures client.probed == old(client.probed) + [e]
    ensures body == if client.world.ours(e) && client.world.get(e).status == 200 then Some(client.world.get(e).body) else None
    ensures refused == (client.world.ours(e) && client.world.get(e).status != 200)
  {
    body, refused := None, false;
    var ours := client.IsOurBroker(e);
    if ours {
      var reply := client.world.get(e);
      if reply.status == 200 { body := Some(reply.body); } else { refused := true; }
    }
  }

  /** Every announced window is asked once, in order; the answers come in that order and the refusals are counted. */
  method ReadFrom(client: BrokerClient, endpoints: seq<Endpoint>) returns (read: WindowRead)
    modifies client`probed
    ensures read == ReadWalk(client.world, endpoints)
    ensures client.probed == old(client.probed) + endpoints
  {
    var bodies, refused := [], 0;
    for i := 0 to |endpoints|
      invariant WindowRead(bodies, refused) == ReadWalk(client.world, endpoints[..i])
      invariant client.probed == old(client.probed) + endpoints[..i]
    {
      ReadWalkAppend(client.world, endpoints[..i], [endpoints[i]]);
      assert endpoints[..i + 1] == endpoints[..i] + [endpoints[i]];
      var body, no := ReadOne(client, endpoints[i]);
      if no { refused := refused + 1; }
      if body.Some? { bodies := bodies + [body.value]; }
    }
    assert endpoints[..|endpoints|] == endpoints;
    read := WindowRead(bodies, refused);
  }

  function Reached(w: World, endpoints: seq<Endpoint>): seq<Endpoint> { Filter(w.ours, endpoints) }

  /** Each window that answers the probe is an answer or a refusal, and no other window is either. */
  lemma {:induction false} EveryReachedWindowCounts(w: World, endpoints: seq<Endpoint>)
    ensures |ReadWalk(w, endpoints).bodies| + ReadWalk(w, endpoints).refused == |Reached(w, endpoints)|
  {
    if endpoints != [] { EveryReachedWindowCounts(w, endpoints[1..]); }
  }

  lemma {:induction false} LiveReachesLess(w: World, endpoints: seq<Endpoint>)
    ensures |Reached(w, Live(w, endpoints))| <= |Reached(w, endpoints)|
    ensures (exists e | e in endpoints :: PidIsGone(w, e.pid) && w.ours(e)) ==>
      |Reached(w, Live(w, endpoints))| < |Reached(w, endpoints)|
  {
    if endpoints != [] {
      LiveReachesLess(w, endpoints[1..]);
      assert endpoints == [endpoints[0]] + endpoints[1..];
      var live := Live(w, endpoints[1..]);
      assert Live(w, endpoints) == if PidIsGone(w, endpoints[0].pid) then live else [endpoints[0]] + live;
      assert ([endpoints[0]] + live)[1..] == live;
    }
  }

  lemma {:induction false} SkippingIsHarmless(w: World, endpoints: seq<Endpoint>)
    requires forall e | e in endpoints :: PidIsGone(w, e.pid) ==> !w.ours(e)
    ensures ReadWalk(w, Live(w, endpoints)) == ReadWalk(w, endpoints)
  {
    if endpoints != [] {
      SkippingIsHarmless(w, endpoints[1..]);
      var live := Live(w, endpoints[1..]);
      assert Live(w, endpoints) == if PidIsGone(w, endpoints[0].pid) then live else [endpoints[0]] + live;
      assert ([endpoints[0]] + live)[1..] == live;
    }
  }

  /** Left out is exactly what names a process of its own that does not exist or has exited; anything doubtful stays. */
  lemma LiveExactly(w: World, endpoints: seq<Endpoint>, e: Endpoint)
    ensures e in Live(w, endpoints)
      <==> e in endpoints && (e.pid <= 0 || w.lookup(e.pid) == Running || w.lookup(e.pid) == Refused)
  {
    var keep := (x: Endpoint) => !PidIsGone(w, x.pid);
    assert Live(w, endpoints) == Filter(keep, endpoints);
    assert keep(e) <==> e.pid <= 0 || w.lookup(e.pid) == Running || w.lookup(e.pid) == Refused;
  }

  /** Skipping the windows whose process is gone reads the same exactly when none of them answers the probe as ours. */
  lemma LiveReadsTheSameExactly(w: World, endpoints: seq<Endpoint>)
    ensures ReadWalk(w, Live(w, endpoints)) == ReadWalk(w, endpoints)
      <==> forall e | e in endpoints :: PidIsGone(w, e.pid) ==> !w.ours(e)
  {
    if forall e | e in endpoints :: PidIsGone(w, e.pid) ==> !w.ours(e) {
      SkippingIsHarmless(w, endpoints);
    } else {
      LiveReachesLess(w, endpoints);
      EveryReachedWindowCounts(w, endpoints);
      EveryReachedWindowCounts(w, Live(w, endpoints));
    }
  }

  // ----- Why nothing came back -----

  datatype NoAnswer = NoWindow | RouteRefused

  /** The sentence for an empty read, chosen by the count of refusals. */
  function WhyNoAnswer(read: WindowRead): Option<NoAnswer> {
    if read.bodies != [] then None else if read.refused == 0 then Some(NoWindow) else Some(RouteRefused)
  }

  /** "No window" is said exactly when no probe succeeded, and "refused" when some did and none of those answered. */
  lemma {:induction false} NoAnswerExactly(w: World, endpoints: seq<Endpoint>)
    ensures var why := WhyNoAnswer(ReadWalk(w, endpoints));
      && (why == Some(NoWindow) <==> forall e | e in endpoints :: !w.ours(e))
      && (why == None <==> exists e | e in endpoints :: w.ours(e) && w.get(e).status == 200)
  {
    if endpoints != [] {
      NoAnswerExactly(w, endpoints[1..]);
      assert endpoints == [endpoints[0]] + endpoints[1..];
    }
  }

  // ----- Posting -----

  /** The windows posted to, and the first reply that does not mean "not mine". */
  function PostWalk(w: World, endpoints: seq<Endpoint>): (seq<Endpoint>, Option<BrokerReply>) {
    if endpoints == [] then ([], None)
    else
      var e, rest := endpoints[0], PostWalk(w, endpoints[1..]);
      if !w.ours(e) then rest
      else if MeansNotMine(w, w.post(e)) then ([e] + rest.0, rest.1)
      else ([e], Some(w.post(e)))
  }

  /** A refusal whose code is not_found; a 200 never is one, whatever its body. */
  predicate Declines(w: World, e: Endpoint) {
    var reply := w.post(e);
    reply.status != 200 && w.errorCode(reply.body) == "not_found"
  }

  /** The window at i answers for the entry, and every one before it that is ours does not. */
  predicate Answers(w: World, endpoints: seq<Endpoint>, i: nat) {
    i < |endpoints| && w.ours(endpoints[i]) && !Declines(w, endpoints[i])
    && forall j | 0 <= j < i :: w.ours(endpoints[j]) ==> Declines(w, endpoints[j])
  }

  lemma ReachedFirst(w: World, endpoints: seq<Endpoint>)
    requires endpoints != []
    ensures Reached(w, endpoints)
         == if w.ours(endpoints[0]) then [endpoints[0]] + Reached(w, endpoints[1..]) else Reached(w, endpoints[1..])
  {
    assert [] + Reached(w, endpoints[1..]) == Reached(w, endpoints[1..]);
  }

  lemma {:induction false} TheAnswerEndsTheWalk(w: World, endpoints: seq<Endpoint>, i: nat)
    requires Answers(w, endpoints, i)
    ensures PostWalk(w, endpoints) == (Reached(w, endpoints[..i + 1]), Some(w.post(endpoints[i])))
  {
    var upTo := endpoints[..i + 1];
    assert upTo[1..] == endpoints[1..][..i] && upTo[0] == endpoints[0];
    ReachedFirst(w, upTo);
    if i > 0 {
      assert endpoints[i] == endpoints[1..][i - 1];
      assert forall j | 0 <= j < i :: endpoints[j + 1] == endpoints[1..][j];
      TheAnswerEndsTheWalk(w, endpoints[1..], i - 1);
      assert w.ours(endpoints[0]) ==> MeansNotMine(w, w.post(endpoints[0]));
    } else {
      assert endpoints[1..][..i] == [] && [endpoints[0]] + [] == [endpoints[0]];
    }
  }

  lemma {:induction false} AWalkIsAnsweredOrWhole(w: World, endpoints: seq<Endpoint>) returns (i: nat)
    ensures Answers(w, endpoints, i) || PostWalk(w, endpoints) == (Reached(w, endpoints), None)
  {
    i := 0;
    if endpoints != [] && !Answers(w, endpoints, 0) {
      var k := AWalkIsAnsweredOrWhole(w, endpoints[1..]);
      assert w.ours(endpoints[0]) ==> MeansNotMine(w, w.post(endpoints[0]));
      ReachedFirst(w, endpoints);
      if Answers(w, endpoints[1..], k) {
        i := k + 1;
        assert endpoints[i] == endpoints[1..][k];
        forall j | 0 <= j < i && w.ours(endpoints[j]) ensures MeansNotMine(w, w.post(endpoints[j])) {
          if j > 0 { assert endpoints[j] == endpoints[1..][j - 1]; }
        }
      }
    }
  }

  /**
   * The reply is that of the first window that is ours and does not mean "not mine"; every window of ours up to it was
   * posted to and none after it. Without one there is no reply and every window of ours was asked.
   */
  lemma PostWalkExactly(w: World, endpoints: seq<Endpoint>)
    ensures PostWalk(w, endpoints).1 == None <==> forall i: nat :: !Answers(w, endpoints, i)
    ensures forall i: nat | Answers(w, endpoints, i) ::
      PostWalk(w, endpoints) == (Reached(w, endpoints[..i + 1]), Some(w.post(endpoints[i])))
    ensures PostWalk(w, endpoints).1 == None ==> PostWalk(w, endpoints).0 == Reached(w, endpoints)
  {
    hide PostWalk;
    var found := AWalkIsAnsweredOrWhole(w, endpoints);
    forall i: nat | Answers(w, endpoints, i)
      ensures PostWalk(w, endpoints) == (Reached(w, endpoints[..i + 1]), Some(w.post(endpoints[i])))
    {
      TheAnswerEndsTheWalk(w, endpoints, i);
    }
  }

  method PostTo(client: BrokerClient, endpoints: seq<Endpoint>) returns (reply: Option<BrokerReply>)
    modifies client
    ensures client.posted == old(client.posted) + PostWalk(client.world, endpoints).0
    ensures reply == PostWalk(client.world, endpoints).1
  {
    for i := 0 to |endpoints|
      invariant client.posted + PostWalk(client.world, endpoints[i..]).0
             == old(client.posted) + PostWalk(client.world, endpoints).0
      invariant PostWalk(client.world, endpoints[i..]).1 == PostWalk(client.world, endpoints).1
    {
      assert endpoints[i..][1..] == endpoints[i + 1..];
      var ours := client.IsOurBroker(endpoints[i]);
      if ours {
        var answer := client.Post(endpoints[i]);
        if !MeansNotMine(client.world, answer) {
          return Some(answer);
        }
      }
    }
    reply := None;
  }

  /**
   * Skipping the windows whose process is gone posts and answers the same exactly when no such window was posted to.
   */
  lemma {:induction false} LivePostsTheSameExactly(w: World, endpoints: seq<Endpoint>)
    ensures PostWalk(w, Live(w, endpoints)) == PostWalk(w, endpoints)
      <==> forall e | e in PostWalk(w, endpoints).0 :: !PidIsGone(w, e.pid)
  {
    PostedAreLive(w, endpoints);
    if forall e | e in PostWalk(w, endpoints).0 :: !PidIsGone(w, e.pid) {
      SkippingPostsTheSame(w, endpoints);
    }
  }

  lemma {:induction false} PostedAreAnnounced(w: World, endpoints: seq<Endpoint>)
    ensures forall e | e in PostWalk(w, endpoints).0 :: e in endpoints
  {
    if endpoints != [] { PostedAreAnnounced(w, endpoints[1..]); }
  }

  lemma PostedAreLive(w: World, endpoints: seq<Endpoint>)
    ensures forall e | e in PostWalk(w, Live(w, endpoints)).0 :: !PidIsGone(w, e.pid)
  {
    PostedAreAnnounced(w, Live(w, endpoints));
  }

  lemma {:induction false} SkippingPostsTheSame(w: World, endpoints: seq<Endpoint>)
    requires forall e | e in PostWalk(w, endpoints).0 :: !PidIsGone(w, e.pid)
    ensures PostWalk(w, Live(w, endpoints)) == PostWalk(w, endpoints)
  {
    if endpoints != [] {
      var e, live := endpoints[0], Live(w, endpoints[1..]);
      assert Live(w, endpoints) == if PidIsGone(w, e.pid) then live else [e] + live;
      assert ([e] + live)[1..] == live;
      if !w.ours(e) || MeansNotMine(w, w.post(e)) {
        SkippingPostsTheSame(w, endpoints[1..]);
      } else {
        assert e in PostWalk(w, endpoints).0;
      }
    }
  }

  // ----- One list out of several -----

  datatype McpEntry = McpEntry(id: string, rest: string)

  /** The entries the JSON reader finds in a body; none in one it cannot read. */
  type EntriesIn = string -> seq<McpEntry>

  function All(entriesIn: EntriesIn, bodies: seq<string>): seq<McpEntry> {
    if bodies == [] then [] else entriesIn(bodies[0]) + All(entriesIn, bodies[1..])
  }

  predicate Unseen(all: seq<McpEntry>, i: nat)
    requires i < |all|
  {
    forall j | 0 <= j < i :: all[j].id != all[i].id
  }

  /** The entries no earlier one shares its id with. */
  function Merged(all: seq<McpEntry>): (r: seq<McpEntry>)
    ensures |r| <= |all|
  {
    if all == [] then []
    else
      var n := |all| - 1;
      Merged(all[..n]) + if Unseen(all, n) then [all[n]] else []
  }

  function Ids(entries: seq<McpEntry>): set<string> { set e | e in entries :: e.id }

  lemma {:induction false} MergedKeepsIds(all: seq<McpEntry>)
    ensures Ids(Merged(all)) == Ids(all)
  {
    if all != [] {
      var n := |all| - 1;
      MergedKeepsIds(all[..n]);
      assert all == all[..n] + [all[n]];
      if Unseen(all, n) {
        assert Ids(Merged(all)) == Ids(Merged(all[..n])) + {all[n].id};
        assert Ids(all) == Ids(all[..n]) + {all[n].id};
      } else {
        var j :| 0 <= j < n && all[j].id == all[n].id;
        assert all[..n][j] in all[..n];
        assert all[n].id in Ids(all[..n]);
        assert Ids(all) == Ids(all[..n]) + {all[n].id};
      }
    }
  }

  function UnseenIn(ids: set<string>): McpEntry -> bool { (e: McpEntry) => e.id !in ids }

  lemma MergedOfOneMore(all: seq<McpEntry>, e: McpEntry)
    ensures Merged(all + [e]) == Merged(all) + if Unseen(all + [e], |all|) then [e] else []
  {
    assert (all + [e])[..|all|] == all;
  }

  /** Merging two answers is the first's merge and then the second's, less the ids already listed. */
  lemma {:induction false} MergedOfBoth(all: seq<McpEntry>, more: seq<McpEntry>)
    ensures Merged(all + more) == Merged(all) + Filter(UnseenIn(Ids(all)), Merged(more))
  {
    if more == [] {
      assert all + more == all;
    } else {
      MergedOfBoth(all, more[..|more| - 1]);
      MergedStep(all, more);
    }
  }

  lemma MergedStep(all: seq<McpEntry>, more: seq<McpEntry>)
    requires more != []
    requires var init := more[..|more| - 1];
      Merged(all + init) == Merged(all) + Filter(UnseenIn(Ids(all)), Merged(init))
    ensures Merged(all + more) == Merged(all) + Filter(UnseenIn(Ids(all)), Merged(more))
  {
    hide Merged, Unseen, Ids, UnseenIn, Filter;
    var n, p := |more| - 1, UnseenIn(Ids(all));
    var init, last := more[..n], more[n];
    assert more == init + [last] && all + more == (all + init) + [last];
    MergedOfOneMore(all + init, last);
    MergedOfOneMore(init, last);
    LastIsUnseen(all, more);
    FilterOneMore(p, Merged(init), last);
    var a, b := Merged(all), Filter(p, Merged(init));
    assert |all + init| == |all| + n;
    assert Merged(more) == if Unseen(more, n) then Merged(init) + [last] else Merged(init) + [];
    assert Merged(init) + [] == Merged(init);
    assert a + b + [] == a + b && a + b + [last] == a + (b + [last]) && b + [] == b;
  }

  lemma LastIsUnseen(all: seq<McpEntry>, more: seq<McpEntry>)
    requires more != []
    ensures Unseen(all + more, |all| + |more| - 1) <==> Unseen(more, |more| - 1) && UnseenIn(Ids(all))(more[|more| - 1])
  {
    UnseenInBoth(all, more);
    hide Unseen, Ids;
  }

  lemma FilterOneMore<T>(keep: T -> bool, s: seq<T>, x: T)
    ensures Filter(keep, s + [x]) == Filter(keep, s) + if keep(x) then [x] else []
  {
    FilterAppend(keep, s, [x]);
  }

  lemma UnseenInBoth(all: seq<McpEntry>, more: seq<McpEntry>)
    requires more != []
    ensures Unseen(all + more, |all| + |more| - 1) <==> Unseen(more, |more| - 1) && more[|more| - 1].id !in Ids(all)
  {
    var both, n := all + more, |more| - 1;
    if Unseen(both, |all| + n) {
      forall j | 0 <= j < n ensures more[j].id != more[n].id { assert both[|all| + j] == more[j]; }
      forall e | e in all ensures e.id != more[n].id { var j :| 0 <= j < |all| && all[j] == e; assert both[j] == e; }
    }
    if Unseen(more, n) && more[n].id !in Ids(all) {
      forall j | 0 <= j < |all| + n ensures both[j].id != more[n].id {
        if j < |all| { assert both[j] in all; } else { assert both[j] == more[j - |all|]; }
      }
    }
  }

  /** The indices, in order, of the entries no earlier one shares its id with. */
  ghost predicate Picks(all: seq<McpEntry>, picks: seq<nat>) {
    && (forall k | 0 <= k < |picks| :: picks[k] < |all| && Unseen(all, picks[k]))
    && (forall k, l | 0 <= k < l < |picks| :: picks[k] < picks[l])
    && (forall i: nat | i < |all| && Unseen(all, i) :: i in picks)
  }

  /** Exactly the first entry of every id is listed, in the order the windows gave them. */
  lemma {:induction false} MergedExactly(all: seq<McpEntry>) returns (picks: seq<nat>)
    ensures Picks(all, picks) && |picks| == |Merged(all)|
    ensures forall k | 0 <= k < |picks| :: Merged(all)[k] == all[picks[k]]
  {
    picks := [];
    if all != [] {
      var n := |all| - 1;
      var before := MergedExactly(all[..n]);
      picks := if Unseen(all, n) then before + [n] else before;
      PicksOfMore(all, before);
      hide Picks, Unseen;
      assert Merged(all) == Merged(all[..n]) + if Unseen(all, n) then [all[n]] else [];
      hide Merged;
      assert forall k | 0 <= k < |before| :: all[..n][before[k]] == all[before[k]];
    }
  }

  lemma PicksOfMore(all: seq<McpEntry>, before: seq<nat>)
    requires all != [] && Picks(all[..|all| - 1], before)
    ensures Picks(all, if Unseen(all, |all| - 1) then before + [|all| - 1] else before)
    ensures forall k | 0 <= k < |before| :: before[k] < |all| - 1
  {
    var n := |all| - 1;
    var picks := if Unseen(all, n) then before + [n] else before;
    assert forall i: nat | i < n :: Unseen(all, i) <==> Unseen(all[..n], i);
    forall i: nat | i < |all| && Unseen(all, i) ensures i in picks {
      if i < n { assert i in before; } else { assert picks[|picks| - 1] == n; }
    }
  }

  /** No id is listed twice. */
  lemma MergedIdsDiffer(all: seq<McpEntry>)
    ensures forall k, l | 0 <= k < l < |Merged(all)| :: Merged(all)[k].id != Merged(all)[l].id
  {
    var picks := MergedExactly(all);
    hide Merged;
    forall k, l | 0 <= k < l < |Merged(all)| ensures Merged(all)[k].id != Merged(all)[l].id {
      assert Unseen(all, picks[l]) && picks[k] < picks[l];
    }
  }

  /** What a window lists after the others adds the ids they did not have, and changes nothing of theirs. */
  lemma MergeOfMoreBodies(entriesIn: EntriesIn, a: seq<string>, b: seq<string>)
    ensures Merged(All(entriesIn, a + b))
         == Merged(All(entriesIn, a)) + Filter(UnseenIn(Ids(Merged(All(entriesIn, a)))), Merged(All(entriesIn, b)))
  {
    AllOfBoth(entriesIn, a, b);
    MergedOfBoth(All(entriesIn, a), All(entriesIn, b));
    MergedKeepsIds(All(entriesIn, a));
  }

  lemma {:induction false} AllOfBoth(entriesIn: EntriesIn, a: seq<string>, b: seq<string>)
    ensures All(entriesIn, a + b) == All(entriesIn, a) + All(entriesIn, b)
  {
    if a == [] {
      assert a + b == b;
    } else {
      assert (a + b)[1..] == a[1..] + b;
      AllOfBoth(entriesIn, a[1..], b);
    }
  }

  lemma AllOfOne(entriesIn: EntriesIn, body: string)
    ensures All(entriesIn, [body]) == entriesIn(body)
  {
  }

  lemma NothingMerged(entriesIn: EntriesIn)
    ensures All(entriesIn, []) == [] && Merged([]) == [] && Ids([]) == {}
  {
  }

  /** The nested loops and their set of seen ids list what the merge of all the entries is. */
  method Merge(entriesIn: EntriesIn, bodies: seq<string>) returns (merged: seq<McpEntry>)
    ensures merged == Merged(All(entriesIn, bodies))
  {
    hide All, Merged, Unseen, Ids;
    NothingMerged(entriesIn);
    merged := [];
    var seen: set<string> := {};
    ghost var all: seq<McpEntry> := [];
    for i := 0 to |bodies|
      invariant all == All(entriesIn, bodies[..i])
      invariant merged == Merged(all) && seen == Ids(all)
    {
      var entries := entriesIn(bodies[i]);
      ghost var before := all;
      assert bodies[..i + 1] == bodies[..i] + [bodies[i]];
      AllOfBoth(entriesIn, bodies[..i], [bodies[i]]);
      AllOfOne(entriesIn, bodies[i]);
      for j := 0 to |entries|
        invariant all == before + entries[..j]
        invariant merged == Merged(all) && seen == Ids(all)
      {
        var e := entries[j];
        MergedOfOneMore(all, e);
        SeenExactly(all, e);
        if e.id !in seen {
          seen := seen + {e.id};
          merged := merged + [e];
        }
        all := all + [e];
        assert entries[..j + 1] == entries[..j] + [e];
      }
      assert entries[..|entries|] == entries;
    }
    assert bodies[..|bodies|] == bodies;
  }

  lemma SeenExactly(all: seq<McpEntry>, e: McpEntry)
    ensures Unseen(all + [e], |all|) <==> e.id !in Ids(all)
    ensures Ids(all + [e]) == Ids(all) + {e.id}
  {
    if Unseen(all + [e], |all|) {
      forall x | x in all ensures x.id != e.id { var j :| 0 <= j < |all| && all[j] == x; assert (all + [e])[j] == x; }
    }
  }
}
