/** Chains of programs as the datapath sees them: a program is reached through
    its 16-bit index in a patch panel, and ends by jumping to the hop that was
    compiled into it.  This module relates the ordered list of transparent cubes
    of a port or netdev to a walk over those indexes. */
module ServiceChain {

  /** "Let the packet pass": no next program. */
  const PASS := 0xffff

  /** Size of a patch panel; live indexes are 1..MAX_NODES-1, 0 is never a program. */
  const MAX_NODES := 1024

  /** Where a program sends a packet: a panel index, or an interface index. */
  datatype Hop = Hop(next: nat, netdev: bool)

  datatype Program =
    | Transparent(next: Hop)   // compiled with NEXT and NEXT_IS_NETDEV
    | Ingress(cube: nat)       // entry program of a forwarding cube
    | Egress(cube: nat)        // optional egress program of a forwarding cube

  /** The maps one hook (TC or XDP) consults: its patch panel, and the successor
      tables of egress programs by (cube, port). */
  datatype Tables = Tables(nodes: map<nat, Program>, egressNext: map<(nat, nat), Hop>)

  datatype Outcome =
    | Delivered(cube: nat, inPort: nat)
    | Redirected(ifindex: nat)
    | Passed
    | Dropped
    | Running                  // out of steps

  datatype Trace = Trace(visited: seq<nat>, outcome: Outcome)

  /** Follows a packet for at most `steps` jumps, recording the indexes of the
      programs it runs.  A jump to an index with no program drops the packet. */
  function Walk(t: Tables, h: Hop, inPort: nat, steps: nat): Trace
    decreases steps
  {
    if h.netdev then Trace([], Redirected(h.next))
    else if h.next == PASS then Trace([], Passed)
    else if h.next !in t.nodes then Trace([], Dropped)
    else if steps == 0 then Trace([], Running)
    else
      match t.nodes[h.next]
      case Ingress(c) => Trace([h.next], Delivered(c, inPort))
      case Transparent(n) => Then([h.next], Walk(t, n, inPort, steps - 1))
      case Egress(c) =>
        if (c, inPort) in t.egressNext
        then Then([h.next], Walk(t, t.egressNext[(c, inPort)], inPort, steps - 1))
        else Trace([h.next], Dropped)
  }

  function Then(before: seq<nat>, rest: Trace): Trace {
    Trace(before + rest.visited, rest.outcome)
  }

  /** An entry of 0 means that a cube has no program of that direction. */
  type Indexes = seq<nat>

  /** The hop of the first program at position i or later, else `end`. */
  function After(idx: Indexes, i: nat, end: Hop): Hop
    requires i <= |idx|
    decreases |idx| - i
  {
    if i == |idx| then end
    else if idx[i] != 0 then Hop(idx[i], false)
    else After(idx, i + 1, end)
  }

  /** The hop of the last program before position i, else `end`. */
  function Before(idx: Indexes, i: nat, end: Hop): Hop
    requires i <= |idx|
  {
    if i == 0 then end
    else if idx[i-1] != 0 then Hop(idx[i-1], false)
    else Before(idx, i - 1, end)
  }

  /** The programs of a list, in list order. */
  function Live(idx: Indexes): (r: seq<nat>)
    ensures forall k :: k in r <==> k in idx && k != 0
  {
    if idx == [] then []
    else (if idx[0] != 0 then [idx[0]] else []) + Live(idx[1..])
  }

  function Reverse(s: seq<nat>): (r: seq<nat>)
    ensures |r| == |s|
    ensures forall i :: 0 <= i < |s| ==> r[i] == s[|s| - 1 - i]
  {
    if s == [] then [] else Reverse(s[1..]) + [s[0]]
  }

  /** The panel holds, at a non-zero index, a program compiled with successor h. */
  ghost predicate Runs(panel: map<nat, Program>, index: nat, h: Hop) {
    index != 0 ==> index in panel && panel[index] == Transparent(h)
  }

  /** The program at position j, if any, jumps to the next program of the list, or
      to `end` if it is the last. */
  ghost predicate NextAt(nodes: map<nat, Program>, idx: Indexes, j: nat, end: Hop) {
    j < |idx| ==> Runs(nodes, idx[j], After(idx, j + 1, end))
  }

  /** The program at position j, if any, jumps to the previous program of the list,
      or to `end` if it is the first. */
  ghost predicate PreviousAt(nodes: map<nat, Program>, idx: Indexes, j: nat, end: Hop) {
    j < |idx| ==> Runs(nodes, idx[j], Before(idx, j, end))
  }

  ghost predicate LinkedUpFrom(nodes: map<nat, Program>, idx: Indexes, i: nat, end: Hop) {
    forall j {:trigger NextAt(nodes, idx, j, end)} :: i <= j < |idx| ==> NextAt(nodes, idx, j, end)
  }

  ghost predicate LinkedUp(nodes: map<nat, Program>, idx: Indexes, end: Hop) {
    LinkedUpFrom(nodes, idx, 0, end)
  }

  ghost predicate LinkedDownTo(nodes: map<nat, Program>, idx: Indexes, i: nat, end: Hop) {
    forall j {:trigger PreviousAt(nodes, idx, j, end)} :: 0 <= j < i ==> PreviousAt(nodes, idx, j, end)
  }

  ghost predicate LinkedDown(nodes: map<nat, Program>, idx: Indexes, end: Hop) {
    LinkedDownTo(nodes, idx, |idx|, end)
  }

  /** The program indexes of a list. */
  ghost function Members(idx: Indexes): set<nat> {
    set k | k in idx && k != 0
  }

  /** No two cubes of the list share a program index. */
  ghost predicate Injective(idx: Indexes) {
    forall i, j :: 0 <= i < j < |idx| && idx[i] != 0 ==> idx[i] != idx[j]
  }

  ghost predicate SameAt<K, V>(m: map<K, V>, m': map<K, V>, k: K) {
    (k in m <==> k in m') && (k in m ==> m'[k] == m[k])
  }

  /** The two maps differ at most at the given keys. */
  ghost predicate Agree<K(!new), V>(m: map<K, V>, m': map<K, V>, except: set<K>) {
    forall k {:trigger SameAt(m, m', k)} :: k !in except ==> SameAt(m, m', k)
  }

  ghost predicate InPanel(idx: Indexes) {
    forall i :: 0 <= i < |idx| ==> idx[i] < MAX_NODES
  }

  // ---------------------------------------------------------------- the walk

  /** One jump to a transparent program. */
  lemma WalkStep(t: Tables, k: nat, next: Hop, inPort: nat, steps: nat)
    requires k in t.nodes && k != PASS && t.nodes[k] == Transparent(next)
    ensures Walk(t, Hop(k, false), inPort, 1 + steps) == Then([k], Walk(t, next, inPort, steps))
  {
  }

  /** Walking an upward-linked list from position i runs exactly its programs, in
      list order, and goes on from `end`. */
  lemma {:induction false} WalkUpFrom(t: Tables, idx: Indexes, i: nat, end: Hop, inPort: nat, steps: nat)
    requires i <= |idx| && InPanel(idx) && LinkedUp(t.nodes, idx, end)
    ensures Walk(t, After(idx, i, end), inPort, |Live(idx[i..])| + steps)
         == Then(Live(idx[i..]), Walk(t, end, inPort, steps))
    decreases |idx| - i
  {
    hide Walk;
    if i == |idx| {
      assert idx[i..] == [];
    } else {
      assert idx[i..][1..] == idx[i+1..];
      assert NextAt(t.nodes, idx, i, end);
      WalkUpFrom(t, idx, i + 1, end, inPort, steps);
      var rest, tail := Live(idx[i+1..]), Walk(t, end, inPort, steps);
      if idx[i] != 0 {
        WalkStep(t, idx[i], After(idx, i + 1, end), inPort, |rest| + steps);
        assert [idx[i]] + (rest + tail.visited) == [idx[i]] + rest + tail.visited;
      } else {
        assert [] + rest == rest;
      }
    }
  }

  /** The programs below position i, last first. */
  function LiveDown(idx: Indexes, i: nat): seq<nat>
    requires i <= |idx|
  {
    if i == 0 then []
    else if idx[i-1] != 0 then [idx[i-1]] + LiveDown(idx, i - 1)
    else LiveDown(idx, i - 1)
  }

  /** The mirror image: a downward-linked list is run from the last program to the
      first. */
  lemma {:induction false} WalkDownFrom(t: Tables, idx: Indexes, i: nat, end: Hop, inPort: nat, steps: nat)
    requires i <= |idx| && InPanel(idx) && LinkedDown(t.nodes, idx, end)
    ensures Walk(t, Before(idx, i, end), inPort, |LiveDown(idx, i)| + steps)
         == Then(LiveDown(idx, i), Walk(t, end, inPort, steps))
  {
    hide Walk;
    if i > 0 {
      assert PreviousAt(t.nodes, idx, i - 1, end);
      WalkDownFrom(t, idx, i - 1, end, inPort, steps);
      if idx[i-1] != 0 {
        var rest, tail := LiveDown(idx, i - 1), Walk(t, end, inPort, steps);
        WalkStep(t, idx[i-1], Before(idx, i - 1, end), inPort, |rest| + steps);
        assert [idx[i-1]] + (rest + tail.visited) == [idx[i-1]] + rest + tail.visited;
      }
    }
  }

  lemma {:induction false} LiveDownIsReverse(idx: Indexes, i: nat)
    requires i <= |idx|
    ensures LiveDown(idx, i) == Reverse(Live(idx[..i]))
    ensures |LiveDown(idx, i)| == |Live(idx[..i])|
  {
    if i == 0 {
      assert idx[..i] == [];
    } else {
      LiveDownIsReverse(idx, i - 1);
      assert idx[..i] == idx[..i-1] + [idx[i-1]];
      LiveAppend(idx[..i-1], idx[i-1]);
      if idx[i-1] != 0 { ReverseAppend(Live(idx[..i-1]), idx[i-1]); }
    }
  }

  lemma WalkUp(t: Tables, idx: Indexes, end: Hop, inPort: nat, steps: nat)
    requires InPanel(idx) && LinkedUp(t.nodes, idx, end)
    ensures Walk(t, After(idx, 0, end), inPort, |Live(idx)| + steps)
         == Then(Live(idx), Walk(t, end, inPort, steps))
  {
    assert idx[0..] == idx;
    WalkUpFrom(t, idx, 0, end, inPort, steps);
  }

  lemma WalkDown(t: Tables, idx: Indexes, end: Hop, inPort: nat, steps: nat)
    requires InPanel(idx) && LinkedDown(t.nodes, idx, end)
    ensures Walk(t, Before(idx, |idx|, end), inPort, |Live(idx)| + steps)
         == Then(Reverse(Live(idx)), Walk(t, end, inPort, steps))
  {
    assert idx[..|idx|] == idx;
    LiveDownIsReverse(idx, |idx|);
    WalkDownFrom(t, idx, |idx|, end, inPort, steps);
  }

  lemma {:induction false} LiveAppend(idx: Indexes, x: nat)
    ensures Live(idx + [x]) == Live(idx) + (if x != 0 then [x] else [])
  {
    if idx == [] {
      assert idx + [x] == [x];
    } else {
      assert (idx + [x])[1..] == idx[1..] + [x];
      LiveAppend(idx[1..], x);
    }
  }

  lemma ReverseAppend(s: seq<nat>, x: nat)
    ensures Reverse(s + [x]) == [x] + Reverse(s)
  {
  }

  // ------------------------------------------------ incremental relinking

  /** Giving program i its successor extends the linked part of the list by one. */
  lemma StepUp(nodes: map<nat, Program>, nodes': map<nat, Program>, idx: Indexes, i: nat, end: Hop, head: Hop)
    requires i < |idx| && Injective(idx) && Agree(nodes, nodes', {idx[i]} - {0})
    requires LinkedUpFrom(nodes, idx, i + 1, end) && head == After(idx, i + 1, end) && Runs(nodes', idx[i], head)
    ensures LinkedUpFrom(nodes', idx, i, end)
    ensures After(idx, i, end) == if idx[i] != 0 then Hop(idx[i], false) else head
  {
    forall j | i <= j < |idx| ensures NextAt(nodes', idx, j, end) {
      assert j > i ==> NextAt(nodes, idx, j, end);
      assert j > i && idx[j] != 0 ==> SameAt(nodes, nodes', idx[j]);
    }
  }

  lemma StepDown(nodes: map<nat, Program>, nodes': map<nat, Program>, idx: Indexes, i: nat, end: Hop, head: Hop)
    requires i < |idx| && Injective(idx) && Agree(nodes, nodes', {idx[i]} - {0})
    requires LinkedDownTo(nodes, idx, i, end) && head == Before(idx, i, end) && Runs(nodes', idx[i], head)
    ensures LinkedDownTo(nodes', idx, i + 1, end)
    ensures Before(idx, i + 1, end) == if idx[i] != 0 then Hop(idx[i], false) else head
  {
    forall j | 0 <= j <= i ensures PreviousAt(nodes', idx, j, end) {
      assert j < i ==> PreviousAt(nodes, idx, j, end);
      assert j < i && idx[j] != 0 ==> SameAt(nodes, nodes', idx[j]);
    }
  }

  /** The last position below i that holds a program, or -1. */
  function LastLive(idx: Indexes, i: nat): (k: int)
    requires i <= |idx|
    ensures -1 <= k < i
    ensures k >= 0 ==> idx[k] != 0
    ensures forall j :: k < j < i ==> idx[j] == 0
  {
    if i == 0 then -1 else if idx[i-1] != 0 then i - 1 else LastLive(idx, i - 1)
  }

  /** Beyond the last program everything falls through to `end`; before it `end` is
      never consulted. */
  lemma {:induction false} AfterSplit(idx: Indexes, i: nat, e1: Hop, e2: Hop)
    requires i <= |idx|
    ensures LastLive(idx, |idx|) < i ==> After(idx, i, e1) == e1
    ensures LastLive(idx, |idx|) >= i ==> After(idx, i, e1) == After(idx, i, e2)
    decreases |idx| - i
  {
    if i < |idx| { AfterSplit(idx, i + 1, e1, e2); }
  }

  /** Incremental relinking: giving a new successor to the single last program of a
      linked list yields exactly the links that relinking the whole list for the
      new tail yields. */
  lemma {:induction false} RetargetLast(nodes: map<nat, Program>, nodes': map<nat, Program>, idx: Indexes, e1: Hop,
                                        e2: Hop)
    requires LinkedUp(nodes, idx, e1) && Injective(idx) && LastLive(idx, |idx|) >= 0
    requires Runs(nodes', idx[LastLive(idx, |idx|)], e2) && Agree(nodes, nodes', {idx[LastLive(idx, |idx|)]})
    ensures LinkedUp(nodes', idx, e2)
    ensures After(idx, 0, e2) == After(idx, 0, e1)
  {
    var k := LastLive(idx, |idx|);
    AfterSplit(idx, 0, e1, e2);
    forall i | 0 <= i < |idx| ensures NextAt(nodes', idx, i, e2) {
      AfterSplit(idx, i + 1, e2, e1);
      AfterSplit(idx, i + 1, e1, e2);
      assert NextAt(nodes, idx, i, e1);
      assert i != k && idx[i] != 0 ==> SameAt(nodes, nodes', idx[i]);
    }
  }

  /** With no program in the list there is nothing to rewrite but the head. */
  lemma NothingToRetarget(nodes: map<nat, Program>, idx: Indexes, end: Hop)
    requires LastLive(idx, |idx|) < 0
    ensures LinkedUp(nodes, idx, end) && After(idx, 0, end) == end && Live(idx) == []
  {
    AfterSplit(idx, 0, end, end);
    if Live(idx) != [] { assert Live(idx)[0] in Live(idx); }
  }

  // ------------------------------------------------------------- framing

  /** Links survive any change to programs outside the list. */
  lemma LinkedFrame(nodes: map<nat, Program>, nodes': map<nat, Program>, idx: Indexes, except: set<nat>, end: Hop)
    requires Agree(nodes, nodes', except) && Members(idx) !! except
    ensures LinkedUp(nodes, idx, end) ==> LinkedUp(nodes', idx, end)
    ensures LinkedDown(nodes, idx, end) ==> LinkedDown(nodes', idx, end)
  {
    forall i | 0 <= i < |idx|
      ensures NextAt(nodes, idx, i, end) ==> NextAt(nodes', idx, i, end)
      ensures PreviousAt(nodes, idx, i, end) ==> PreviousAt(nodes', idx, i, end)
    {
      assert idx[i] != 0 ==> idx[i] in Members(idx) && SameAt(nodes, nodes', idx[i]);
    }
  }

  lemma AgreeTrans<K(!new), V>(a: map<K, V>, b: map<K, V>, c: map<K, V>, ab: set<K>, bc: set<K>, all: set<K>)
    requires Agree(a, b, ab) && Agree(b, c, bc) && ab <= all && bc <= all
    ensures Agree(a, c, all)
  {
    forall k | k !in all ensures SameAt(a, c, k) {
      assert SameAt(a, b, k) && SameAt(b, c, k);
    }
  }

  lemma AgreeEverywhere<K(!new), V>(a: map<K, V>, b: map<K, V>)
    requires Agree(a, b, {})
    ensures a == b
  {
    forall k ensures k in a <==> k in b { assert SameAt(a, b, k); }
    forall k | k in a ensures a[k] == b[k] { assert SameAt(a, b, k); }
  }

  lemma SameProgram(a: map<nat, Program>, b: map<nat, Program>, k: nat, h: Hop)
    requires Agree(a, b, {k} - {0}) && Runs(a, k, h) && Runs(b, k, h)
    ensures a == b
  {
    assert k != 0 ==> SameAt(a, b, k);
    AgreeEverywhere(a, b);
  }

  /** The head of a list is `end` or one of its programs. */
  lemma {:induction false} AfterRange(idx: Indexes, i: nat, end: Hop)
    requires i <= |idx|
    ensures After(idx, i, end) == end
         || (!After(idx, i, end).netdev && After(idx, i, end).next != 0 && After(idx, i, end).next in idx)
    decreases |idx| - i
  {
    if i < |idx| { AfterRange(idx, i + 1, end); }
  }

  lemma {:induction false} BeforeRange(idx: Indexes, i: nat, end: Hop)
    requires i <= |idx|
    ensures Before(idx, i, end) == end
         || (!Before(idx, i, end).netdev && Before(idx, i, end).next != 0 && Before(idx, i, end).next in idx)
  {
    if i > 0 { BeforeRange(idx, i - 1, end); }
  }

  /** With no program in the list its entry is whatever comes behind; otherwise that is
      never consulted. */
  lemma {:induction false} BeforeEnds(idx: Indexes, i: nat, e1: Hop, e2: Hop)
    requires i <= |idx|
    ensures LiveDown(idx, i) == [] ==> Before(idx, i, e1) == e1 && Before(idx, i, e2) == e2
    ensures LiveDown(idx, i) != [] ==> Before(idx, i, e1) == Before(idx, i, e2) == Hop(LiveDown(idx, i)[0], false)
    ensures LiveDown(idx, i) != [] ==> LiveDown(idx, i)[0] in idx && LiveDown(idx, i)[0] != 0
  {
    if i > 0 { BeforeEnds(idx, i - 1, e1, e2); }
  }
}
