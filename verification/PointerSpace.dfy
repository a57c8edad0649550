/**
 Pointer chains over a snapshot of memory: the forward walker that resolves a chain, reachability by
 pointer hops, and the breadth-first levels of the reverse search.
 */
module PointerSpace {
  import opened Common
  import Text

  datatype Region = Region(base: int, size: nat, readable: bool)

  datatype ModuleInfo = ModuleInfo(name: string, base: int, size: nat)

  datatype Chain = Chain(moduleName: string, moduleOffset: int, offsets: seq<int>, moduleBase: int)

  // What one scan searches: memory, regions, the target's pointer width, and what counts as a match.
  datatype Space = Space(mem: Memory, regions: seq<Region>, width: nat, target: int, maxOffset: nat)

  predicate IsAddress(a: int) { 0 <= a < TWO_TO_THE_64 }

  ghost predicate ValidSpace(sp: Space)
  {
    && (sp.width == 4 || sp.width == 8)
    && IsAddress(sp.target)
    && forall a :: a in sp.mem ==> IsAddress(a)
  }

  /** A whole target-width pointer, zero-extended, or nothing: a short read is a failure. */
  function ReadPointer(mem: Memory, width: nat, a: int): Option<nat>
  {
    if Mapped(mem, a, width) then Some(LittleEndian(Slice(mem, a, width))) else None
  }

  /** The address reached from a by following the offsets, in 64-bit arithmetic. */
  function Walk(mem: Memory, width: nat, a: int, offsets: seq<int>): Option<int>
    decreases offsets
  {
    if offsets == [] then Some(a)
    else match ReadPointer(mem, width, a)
      case None => None
      case Some(p) => if p == 0 then None else Walk(mem, width, (p + offsets[0]) % TWO_TO_THE_64, offsets[1..])
  }

  /** i is a whole number of pointers of the target's width, four or eight bytes. */
  predicate Aligned(width: nat, i: int) { if width == 4 then i % 4 == 0 else i % 8 == 0 }

  predicate InRegion(r: Region, width: nat, a: int)
  {
    r.readable && r.base <= a && Aligned(width, a - r.base) && a + width <= r.base + r.size
  }

  /** A readable, pointer-aligned place in some region. */
  ghost predicate IsSlot(sp: Space, a: int)
    requires ValidSpace(sp)
  {
    Mapped(sp.mem, a, sp.width) && exists r :: r in sp.regions && InRegion(r, sp.width, a)
  }

  /** The pointer stored at a lands at or up to maxOffset below b. */
  predicate Edge(sp: Space, a: int, b: int)
  {
    match ReadPointer(sp.mem, sp.width, a)
    case None => false
    case Some(p) => p != 0 && p <= b <= p + sp.maxOffset
  }

  /** The target is n pointer hops from a. */
  ghost predicate Hops(sp: Space, a: int, n: nat)
    requires ValidSpace(sp)
    decreases n
  {
    if n == 0 then a == sp.target
    else IsSlot(sp, a) && exists b :: Edge(sp, a, b) && Hops(sp, b, n - 1)
  }

  ghost predicate Reaches(sp: Space, a: int, n: nat)
    requires ValidSpace(sp)
  {
    exists k :: 0 <= k <= n && Hops(sp, a, k)
  }

  // ----- The unindexed reverse breadth-first search -----

  ghost function Level(sp: Space, d: nat): set<int>
    requires ValidSpace(sp)
    decreases d, 0
  {
    if d == 0 then {sp.target}
    else set a | a in sp.mem && IsSlot(sp, a) && a !in Visited(sp, d - 1)
                 && exists b :: b in Level(sp, d - 1) && Edge(sp, a, b)
  }

  ghost function Visited(sp: Space, d: nat): set<int>
    requires ValidSpace(sp)
    decreases d, 1
  {
    if d == 0 then {sp.target} else Visited(sp, d - 1) + Level(sp, d)
  }

  lemma {:induction false} VisitedIsReachable(sp: Space, d: nat, a: int)
    requires ValidSpace(sp)
    ensures a in Visited(sp, d) <==> Reaches(sp, a, d)
    decreases d
  {
    if d == 0 {
      if a == sp.target { assert Hops(sp, a, 0); }
    } else {
      VisitedIsReachable(sp, d - 1, a);
      if a in Level(sp, d) {
        LevelHops(sp, d, a);
        assert Reaches(sp, a, d);
      }
      if Reaches(sp, a, d) && a !in Visited(sp, d - 1) {
        assert Hops(sp, a, d);
        var b :| Edge(sp, a, b) && Hops(sp, b, d - 1);
        assert Reaches(sp, b, d - 1);
        VisitedIsReachable(sp, d - 1, b);
        NotVisitedEarlier(sp, d - 1, a, b);
        assert a in sp.mem;
      }
    }
  }

  lemma {:induction false} LevelHops(sp: Space, d: nat, a: int)
    requires ValidSpace(sp) && a in Level(sp, d)
    ensures Hops(sp, a, d)
    decreases d
  {
    if d > 0 {
      var b :| b in Level(sp, d - 1) && Edge(sp, a, b);
      LevelHops(sp, d - 1, b);
    }
  }

  /** A visited node below the last level has its slots visited too. */
  lemma NotVisitedEarlier(sp: Space, d: nat, a: int, b: int)
    requires ValidSpace(sp) && IsSlot(sp, a) && Edge(sp, a, b) && b in Visited(sp, d)
    ensures a in Visited(sp, d) || b in Level(sp, d)
    decreases d
  {
    if d > 0 && b !in Level(sp, d) {
      NotVisitedEarlier(sp, d - 1, a, b);
      if b in Level(sp, d - 1) && a !in Visited(sp, d - 1) {
        assert a in sp.mem;
        assert a in Level(sp, d);
      }
    }
  }

  lemma {:induction false} VisitedGrows(sp: Space, d: nat, e: nat)
    requires ValidSpace(sp) && d <= e
    ensures Visited(sp, d) <= Visited(sp, e)
    decreases e
  {
    if d < e { VisitedGrows(sp, d, e - 1); }
  }

  lemma LevelSplits(sp: Space, d: nat, a: int)
    requires ValidSpace(sp) && d > 0
    ensures a in Level(sp, d) <==> a in Visited(sp, d) && a !in Visited(sp, d - 1)
  {
  }

  /** A level holds exactly the addresses whose shortest path to the target has that many hops. */
  lemma LevelIsShortest(sp: Space, d: nat, a: int)
    requires ValidSpace(sp)
    ensures a in Level(sp, d) <==> Hops(sp, a, d) && (d > 0 ==> !Reaches(sp, a, d - 1))
  {
    if d > 0 {
      LevelSplits(sp, d, a);
      VisitedIsReachable(sp, d, a);
      VisitedIsReachable(sp, d - 1, a);
      assert Reaches(sp, a, d) <==> Reaches(sp, a, d - 1) || Hops(sp, a, d);
    }
  }

  lemma {:induction false} EmptyLevelsStayEmpty(sp: Space, d: nat, e: nat)
    requires ValidSpace(sp) && Level(sp, d) == {} && d <= e
    ensures Level(sp, e) == {}
    ensures Visited(sp, e) == Visited(sp, d)
    decreases e
  {
    if d < e { EmptyLevelsStayEmpty(sp, d, e - 1); }
  }

  // ----- Resolving a chain -----

  /** Module names match without regard to case. */
  predicate SameName(left: string, right: string)
  {
    |left| == |right| && forall i :: 0 <= i < |left| ==> Text.LowerChar(left[i]) == Text.LowerChar(right[i])
  }

  predicate UniqueModules(modules: seq<ModuleInfo>)
  {
    && (forall m | m in modules :: m.name != "" && m.base != 0)
    && forall i, j :: 0 <= i < j < |modules| ==> !SameName(modules[i].name, modules[j].name)
  }

  predicate Contains(m: ModuleInfo, a: int) { m.base <= a < m.base + m.size }

  /** The base of the first module of this name, zero when none is loaded. */
  function BaseOf(modules: seq<ModuleInfo>, name: string): int
  {
    if modules == [] then 0
    else if SameName(modules[0].name, name) then modules[0].base
    else BaseOf(modules[1..], name)
  }

  function Resolved(mem: Memory, width: nat, chain: Chain, modules: seq<ModuleInfo>): Option<int>
  {
    if chain.moduleName == "" then
      if chain.moduleOffset == 0 then None
      else Walk(mem, width, chain.moduleOffset % TWO_TO_THE_64, chain.offsets)
    else
      var base := BaseOf(modules, chain.moduleName);
      if base == 0 then None
      else Walk(mem, width, (base + chain.moduleOffset) % TWO_TO_THE_64, chain.offsets)
  }

  lemma {:induction false} BaseOfUnique(modules: seq<ModuleInfo>, k: nat)
    requires UniqueModules(modules) && k < |modules|
    ensures BaseOf(modules, modules[k].name) == modules[k].base
    decreases modules
  {
    if k > 0 {
      assert modules[1..][k - 1] == modules[k];
      assert forall i :: 0 <= i < |modules[1..]| ==> modules[1..][i] == modules[i + 1];
      assert forall m :: m in modules[1..] ==> m in modules;
      BaseOfUnique(modules[1..], k - 1);
    }
  }

  /** One pass over the offsets, as the source resolves a chain. */
  method ResolveChain(mem: Memory, width: nat, chain: Chain, modules: seq<ModuleInfo>) returns (result: Option<int>)
    ensures result == Resolved(mem, width, chain, modules)
  {
    if chain.moduleName == "" && chain.moduleOffset == 0 {
      return None;
    }
    var moduleBase := 0;
    if chain.moduleName != "" {
      var i := 0;
      while i < |modules| && !SameName(modules[i].name, chain.moduleName)
        invariant 0 <= i <= |modules|
        invariant BaseOf(modules, chain.moduleName) == BaseOf(modules[i..], chain.moduleName)
      {
        assert modules[i..][1..] == modules[i + 1..];
        i := i + 1;
      }
      if i < |modules| {
        moduleBase := modules[i].base;
      }
      if moduleBase == 0 {
        return None;
      }
    }
    var address := (moduleBase + chain.moduleOffset) % TWO_TO_THE_64;
    ghost var start := address;
    for i := 0 to |chain.offsets|
      invariant Walk(mem, width, start, chain.offsets) == Walk(mem, width, address, chain.offsets[i..])
    {
      assert chain.offsets[i..][1..] == chain.offsets[i + 1..];
      match ReadPointer(mem, width, address)
      case None => return None;
      case Some(p) =>
        if p == 0 {
          return None;
        }
        address := (p + chain.offsets[i]) % TWO_TO_THE_64;
    }
    return Some(address);
  }
}
