/** Indexes of programs in the patch panels of the two hooks, which share one set of free
    indexes, and the cubes that own them. */
module PatchPanel {
  import opened ServiceChain

  const MAX_PROGRAMS := 64

  /** The smallest element. */
  method Least(s: set<nat>) returns (m: nat)
    requires s != {}
    ensures m in s && forall k :: k in s ==> m <= k
  {
    m :| m in s;
    var rest := s - {m};
    while rest != {}
      invariant m in s && rest <= s && forall j :: j in s && j !in rest ==> m <= j
      decreases rest
    {
      var k :| k in rest;
      if k < m { m := k; }
      rest := rest - {k};
    }
  }

  /** The free indexes and, per hook, the presence of each index. */
  class Panels {
    var free: set<nat>
    const tc: array<bool>
    const xdp: array<bool>

    constructor ()
      ensures Valid() && fresh(tc) && fresh(xdp) && forall i :: i in free <==> 0 < i < MAX_NODES
    {
      tc, xdp := new bool[MAX_NODES](_ => false), new bool[MAX_NODES](_ => false);
      free := {};
      new;
      for i := 1 to MAX_NODES
        invariant forall k :: k in free <==> 0 < k < i
        invariant forall k :: 0 <= k < MAX_NODES ==> !tc[k] && !xdp[k]
      {
        free := free + {i};
      }
    }

    function Panel(onXdp: bool): array<bool> {
      if onXdp then xdp else tc
    }

    /** An index is free iff it is present in neither panel; 0 is never an index. */
    ghost predicate Valid()
      reads this, tc, xdp
    {
      && tc.Length == xdp.Length == MAX_NODES && tc != xdp
      && 0 !in free && !tc[0] && !xdp[0] && (forall i :: i in free ==> i < MAX_NODES)
      && forall i :: 0 < i < MAX_NODES ==> (i in free <==> !tc[i] && !xdp[i])
    }

    /** Takes the smallest free index; there must be one. */
    method Add(onXdp: bool) returns (p: nat)
      requires Valid() && free != {}
      modifies this`free, Panel(onXdp)
      ensures Valid() && p in old(free) && 0 < p < MAX_NODES && forall k :: k in old(free) ==> p <= k
      ensures free == old(free) - {p}
      ensures Panel(onXdp)[..] == old(Panel(onXdp)[..])[p := true]
    {
      p := Least(free);
      free := free - {p};
      Panel(onXdp)[p] := true;
    }

    /** Takes a given index, unless it is present in this panel. */
    method AddAt(onXdp: bool, index: nat) returns (ok: bool)
      requires Valid() && 0 < index < MAX_NODES
      modifies this`free, Panel(onXdp)
      ensures Valid() && (ok <==> !old(Panel(onXdp)[index]))
      ensures free == if ok then old(free) - {index} else old(free)
      ensures Panel(onXdp)[..] == if ok then old(Panel(onXdp)[..])[index := true] else old(Panel(onXdp)[..])
    {
      if Panel(onXdp)[index] { return false; }
      free := free - {index};
      Panel(onXdp)[index] := true;
      ok := true;
    }

    /** Frees an index at both hooks. */
    method Remove(index: nat)
      requires Valid() && 0 < index < MAX_NODES
      modifies this`free, tc, xdp
      ensures Valid() && free == old(free) + {index}
      ensures tc[..] == old(tc[..])[index := false] && xdp[..] == old(xdp[..])[index := false]
    {
      tc[index] := false;
      xdp[index] := false;
      free := free + {index};
    }

    /** Replaces the program of an index; it must be present. */
    method Update(onXdp: bool, index: nat) returns (ok: bool)
      requires Valid() && index < MAX_NODES
      ensures ok <==> Panel(onXdp)[index]
    {
      ok := Panel(onXdp)[index];
    }
  }

  datatype Added = Added(index: nat) | InvalidIndex | NotEmpty | NoneLeft | IndexBusy

  /** The position a new program gets, or the error. */
  function Place(programs: seq<bool>, index: int): Added
    requires |programs| == MAX_PROGRAMS
  {
    if index < -1 || index >= MAX_PROGRAMS then InvalidIndex
    else if index != -1 then if programs[index] then NotEmpty else Added(index)
    else FirstEmpty(programs, 0)
  }

  function FirstEmpty(programs: seq<bool>, i: nat): (r: Added)
    requires i <= |programs|
    ensures r.Added? || r.NoneLeft?
    ensures r.Added? ==> i <= r.index < |programs| && !programs[r.index] && forall j :: i <= j < r.index ==> programs[j]
    ensures r.NoneLeft? ==> forall j :: i <= j < |programs| ==> programs[j]
    decreases |programs| - i
  {
    if i == |programs| then NoneLeft else if !programs[i] then Added(i) else FirstEmpty(programs, i + 1)
  }

  /** The outcome of each request: the position asked for, or the first empty one for -1. */
  lemma PlaceLaw(programs: seq<bool>, index: int)
    requires |programs| == MAX_PROGRAMS
    ensures var r := Place(programs, index);
            && (r == InvalidIndex <==> index < -1 || index >= MAX_PROGRAMS)
            && (r == NotEmpty <==> 0 <= index < MAX_PROGRAMS && programs[index])
            && (r == NoneLeft <==> index == -1 && forall j :: 0 <= j < MAX_PROGRAMS ==> programs[j])
            && (r.Added? && index >= 0 ==> r.index == index)
            && (r.Added? ==> r.index < MAX_PROGRAMS && !programs[r.index])
            && (r.Added? && index == -1 ==> forall j :: 0 <= j < r.index ==> programs[j])
            && r != IndexBusy
  {
  }

  lemma FirstIsFree()
    ensures Place(seq(MAX_PROGRAMS, _ => false), 0) == Added(0)
  {
  }

  class Cube {
    const panels: Panels
    const xdp: bool
    var ingress: seq<bool>     // which of the ingress programs are loaded
    var egress: seq<bool>
    var ingressIndex: nat      // 0 until the first program is added
    var egressIndex: nat

    constructor (panels: Panels, xdp: bool)
      ensures this.panels == panels && this.xdp == xdp && ingressIndex == egressIndex == 0
      ensures ingress == egress == seq(MAX_PROGRAMS, _ => false)
    {
      this.panels, this.xdp := panels, xdp;
      ingress, egress := seq(MAX_PROGRAMS, _ => false), seq(MAX_PROGRAMS, _ => false);
      ingressIndex, egressIndex := 0, 0;
    }

    /** An index is held at the hooks where the cube's programs run: an egress program
        of an XDP cube has one index for both. */
    ghost predicate Holds()
      reads this, panels, panels.tc, panels.xdp
    {
      && panels.Valid() && |ingress| == |egress| == MAX_PROGRAMS
      && ingressIndex < MAX_NODES && egressIndex < MAX_NODES && (ingressIndex != 0 ==> ingressIndex != egressIndex)
      && (ingressIndex != 0 ==> panels.Panel(xdp)[ingressIndex] && !panels.Panel(!xdp)[ingressIndex])
      && (egressIndex != 0 ==> panels.tc[egressIndex] && panels.xdp[egressIndex] == xdp)
    }

    ghost function Keys(): set<nat>
      reads this`ingressIndex, this`egressIndex
    {
      {ingressIndex, egressIndex} - {0}
    }

    lemma KeysOf()
      ensures |Keys()| == (if ingressIndex != 0 then 1 else 0)
                        + (if egressIndex != 0 && egressIndex != ingressIndex then 1 else 0)
    {
      assert Keys() == (if ingressIndex != 0 then {ingressIndex} else {}) + (if egressIndex != 0 then {egressIndex}
        else {});
    }

    /** Only this cube's indexes were taken or freed. */
    twostate predicate OnlyOwn(extra: set<nat>)
      reads panels, panels.tc, panels.xdp
    {
      && (forall i :: 0 < i < MAX_NODES && i !in extra ==> (i in panels.free <==> i in old(panels.free)))
      && panels.tc.Length == panels.xdp.Length == MAX_NODES
      && (forall i :: 0 < i < MAX_NODES && i !in extra ==>
          panels.tc[i] == old(panels.tc[i]) && panels.xdp[i] == old(panels.xdp[i]))
    }

    method AddIngress(index: int) returns (r: Added)
      requires Holds() && panels.free != {}
      modifies this`ingress, this`ingressIndex, panels`free, panels.Panel(xdp)
      ensures Holds() && r == Place(old(ingress), index)
      ensures ingress == if r.Added? then old(ingress)[r.index := true] else old(ingress)
      ensures ingressIndex == old(ingressIndex) || (old(ingressIndex) == 0 && ingressIndex in old(panels.free))
      ensures r == Added(0) ==> ingressIndex != 0
      ensures ingressIndex != old(ingressIndex) ==> r == Added(0)
      ensures panels.free == old(panels.free) - (if ingressIndex == old(ingressIndex) then {} else {ingressIndex})
      ensures OnlyOwn({ingressIndex})
    {
      r := Place(ingress, index);
      if !r.Added? { return; }
      ingress := ingress[r.index := true];
      if r.index == 0 {
        if ingressIndex != 0 {
          var ok := panels.Update(xdp, ingressIndex);
          assert ok;
        } else {
          ingressIndex := panels.Add(xdp);
        }
      }
    }

    /** Adds an egress program; that of an XDP cube goes to both hooks.  Adding the first
        program of an XDP cube again after deleting it is refused by the TC panel. */
    method AddEgress(index: int) returns (r: Added)
      requires Holds() && panels.free != {}
      modifies this`egress, this`egressIndex, panels`free, panels.tc, panels.xdp
      ensures Holds()
      ensures r == if xdp && old(egressIndex) != 0 && Place(old(egress), index) == Added(0) then IndexBusy
              else Place(old(egress), index)
      ensures var p := Place(old(egress), index); egress == if p.Added? then old(egress)[p.index := true]
              else old(egress)
      ensures egressIndex == old(egressIndex) || (old(egressIndex) == 0 && egressIndex in old(panels.free))
      ensures r == Added(0) ==> egressIndex != 0
      ensures egressIndex != old(egressIndex) ==> r == Added(0)
      ensures panels.free == old(panels.free) - (if egressIndex == old(egressIndex) then {} else {egressIndex})
      ensures OnlyOwn({egressIndex})
    {
      r := Place(egress, index);
      if !r.Added? { return; }
      egress := egress[r.index := true];
      if r.index == 0 {
        if egressIndex != 0 {
          var ok := panels.Update(xdp, egressIndex);
          assert ok;
        } else {
          egressIndex := panels.Add(xdp);
        }
        if xdp {
          var ok := panels.AddAt(false, egressIndex);
          if !ok { return IndexBusy; }
        }
      }
    }

    method DelProgram(index: int, isEgress: bool) returns (ok: bool)
      requires |ingress| == |egress| == MAX_PROGRAMS
      modifies this`ingress, this`egress
      ensures ok <==> 0 <= index < MAX_PROGRAMS && old(if isEgress then egress else ingress)[index]
      ensures ingress == if ok && !isEgress then old(ingress)[index := false] else old(ingress)
      ensures egress == if ok && isEgress then old(egress)[index := false] else old(egress)
    {
      if index < 0 || index >= MAX_PROGRAMS { return false; }
      if isEgress {
        if !egress[index] { return false; }
        egress := egress[index := false];
      } else {
        if !ingress[index] { return false; }
        ingress := ingress[index := false];
      }
      ok := true;
    }

    /** Gives the indexes back when the cube is destroyed. */
    method Uninit()
      requires Holds()
      modifies this, panels`free, panels.tc, panels.xdp
      ensures panels.Valid() && ingressIndex == egressIndex == 0
      ensures panels.free == old(panels.free) + old(Keys())
      ensures OnlyOwn(old(Keys()))
    {
      if ingressIndex != 0 { panels.Remove(ingressIndex); }
      if egressIndex != 0 { panels.Remove(egressIndex); }
      ingress, egress := seq(MAX_PROGRAMS, _ => false), seq(MAX_PROGRAMS, _ => false);
      ingressIndex, egressIndex := 0, 0;
    }
  }

  /** All live cubes of a daemon. */
  class Daemon {
    const panels: Panels
    var cubes: set<Cube>
    ghost var owner: map<nat, Cube>    // of every index that is not free

    constructor ()
      ensures Valid() && cubes == {}
    {
      panels := new Panels();
      cubes, owner := {}, map[];
    }

    ghost predicate Owned(c: Cube)
      reads this, panels, panels.tc, panels.xdp, c
    {
      && c.panels == panels && c.Holds()
      && forall i :: i in c.Keys() ==> i in owner && owner[i] == c
    }

    /** Each index that is not free belongs to one live cube, and no other index is in
        use. */
    ghost predicate Valid()
      reads this, panels, panels.tc, panels.xdp, cubes
    {
      && panels.Valid()
      && (forall c :: c in cubes ==> Owned(c))
      && (forall i :: i in owner <==> 0 < i < MAX_NODES && i !in panels.free)
      && (forall i :: i in owner ==> owner[i] in cubes && i in owner[i].Keys())
    }

    /** Live cubes never share an index, nor a cube its two directions. */
    lemma NoSharing(c: Cube, d: Cube)
      requires Valid() && c in cubes && d in cubes
      ensures c != d ==> c.Keys() !! d.Keys()
      ensures c.ingressIndex != 0 ==> c.ingressIndex != c.egressIndex
      ensures c.Keys() !! panels.free && 0 !in c.Keys()
    {
    }

    method NewCube(xdp: bool) returns (c: Cube)
      requires Valid()
      modifies this`cubes
      ensures Valid() && fresh(c) && cubes == old(cubes) + {c}
      ensures c.panels == panels && c.xdp == xdp && c.ingressIndex == c.egressIndex == 0
      ensures c.ingress == c.egress == seq(MAX_PROGRAMS, _ => false)
    {
      c := new Cube(panels, xdp);
      cubes := cubes + {c};
      assert forall d :: d in old(cubes) ==> old(Owned(d));
    }

    /** What one cube took or gave back leaves the others' indexes alone. */
    twostate lemma OthersKeep(c: Cube, new keys: set<nat>)
      requires old(Valid()) && c in old(cubes) && c.panels == panels && c.OnlyOwn(keys) && panels.Valid()
      requires forall i :: i in keys && i != 0 ==> i in old(panels.free) || i in old(c.Keys())
      requires forall d :: d in old(cubes) && d != c ==> unchanged(d)
      ensures forall d :: d in old(cubes) && d != c ==> d.Holds() && d.Keys() !! keys
    {
      forall d | d in old(cubes) && d != c ensures d.Holds() && d.Keys() !! keys {
        assert old(Owned(d)) && old(Owned(c));
        forall i | i in d.Keys() ensures i !in keys {
          assert old(i in owner && owner[i] == d);
        }
        assert d.ingressIndex != 0 ==> d.ingressIndex in d.Keys();
        assert d.egressIndex != 0 ==> d.egressIndex in d.Keys();
      }
    }

    /** Commits what one cube did: it may have taken one index. */
    twostate lemma CubeGrew(c: Cube, new i: nat)
      requires old(Valid()) && c in old(cubes) && cubes == old(cubes) && c.Holds() && c.panels == panels &&
               c.OnlyOwn({i})
      requires if i in old(c.Keys()) || i == 0
               then c.Keys() == old(c.Keys()) && panels.free == old(panels.free) && owner == old(owner)
               else i in old(panels.free) && c.Keys() == old(c.Keys()) + {i}
                    && panels.free == old(panels.free) - {i} && owner == old(owner)[i := c]
      requires forall d :: d in cubes && d != c ==> unchanged(d)
      ensures Valid()
    {
      OthersKeep(c, {i});
      forall d | d in cubes ensures Owned(d) {
        assert old(Owned(d));
      }
    }

    method AddProgram(c: Cube, index: int, isEgress: bool) returns (r: Added)
      requires Valid() && c in cubes && panels.free != {}
      modifies this`owner, c, panels`free, panels.tc, panels.xdp
      ensures Valid()
      ensures r == if !isEgress then Place(old(c.ingress), index)
                   else if c.xdp && old(c.egressIndex) != 0 && Place(old(c.egress), index) == Added(0) then IndexBusy
                   else Place(old(c.egress), index)
      ensures r == Added(0) ==> (if isEgress then c.egressIndex else c.ingressIndex) != 0
      ensures if isEgress then c.ingress == old(c.ingress) && c.ingressIndex == old(c.ingressIndex)
              else c.egress == old(c.egress) && c.egressIndex == old(c.egressIndex)
      ensures panels.free == old(panels.free) - (c.Keys() - old(c.Keys()))
      ensures old(c.ingressIndex) != 0 ==> c.ingressIndex == old(c.ingressIndex)
      ensures old(c.egressIndex) != 0 ==> c.egressIndex == old(c.egressIndex)
    {
      hide Cube.Holds, Cube.OnlyOwn, Panels.Valid;
      assert Owned(c);
      if isEgress {
        r := c.AddEgress(index);
        if c.egressIndex != old(c.egressIndex) { owner := owner[c.egressIndex := c]; }
        CubeGrew(c, c.egressIndex);
      } else {
        r := c.AddIngress(index);
        if c.ingressIndex != old(c.ingressIndex) { owner := owner[c.ingressIndex := c]; }
        CubeGrew(c, c.ingressIndex);
      }
    }

    /** Destroys a cube; exactly its indexes become free again. */
    method Destroy(c: Cube)
      requires Valid() && c in cubes
      modifies this`cubes, this`owner, c, panels`free, panels.tc, panels.xdp
      ensures Valid() && cubes == old(cubes) - {c} && panels.free == old(panels.free) + old(c.Keys())
    {
      hide Panels.Valid, Cube.Holds;
      assert Owned(c);
      c.Uninit();
      cubes := cubes - {c};
      owner := owner - old(c.Keys());
      OthersKeep(c, old(c.Keys()));
      forall d | d in cubes ensures Owned(d) {
        assert old(Owned(d));
      }
    }
  }
}
