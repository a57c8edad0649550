/**
 What a chain of pointers resolves to, told byte by byte: a pointer is the number whose base-256 digits memory holds,
 lowest first, and a chain is a path of such pointers.
 */
module PointerReading {
  import opened Common
  import opened PointerSpace
  import Text

  /** The k-th base-256 digit of a number, from the lowest. */
  function Digit(v: nat, k: nat): Byte
    decreases k
  {
    if k == 0 then v % 256 else Digit(v / 256, k - 1)
  }

  function Power256(n: nat): nat { if n == 0 then 1 else 256 * Power256(n - 1) }

  lemma DigitAfter(low: Byte, high: nat, k: nat)
    ensures Digit(low + 256 * high, k) == if k == 0 then low else Digit(high, k - 1)
  {
    assert (low + 256 * high) / 256 == high;
  }

  /** A byte string is read as the number it is the digits of. */
  lemma {:induction false} DigitsOfBytes(bytes: seq<Byte>)
    ensures LittleEndian(bytes) < Power256(|bytes|)
    ensures forall k: nat :: k < |bytes| ==> Digit(LittleEndian(bytes), k) == bytes[k]
  {
    if bytes != [] {
      DigitsOfBytes(bytes[1..]);
      forall k: nat | k < |bytes| ensures Digit(LittleEndian(bytes), k) == bytes[k] {
        DigitAfter(bytes[0], LittleEndian(bytes[1..]), k);
        if k > 0 { assert bytes[1..][k - 1] == bytes[k]; }
      }
    }
  }

  /** And no other number has these digits. */
  lemma {:induction false} BytesOfDigits(v: nat, bytes: seq<Byte>)
    requires v < Power256(|bytes|) && forall k: nat :: k < |bytes| ==> Digit(v, k) == bytes[k]
    ensures LittleEndian(bytes) == v
    decreases |bytes|
  {
    if bytes != [] {
      assert Digit(v, 0) == bytes[0];
      forall k: nat | k < |bytes| - 1 ensures Digit(v / 256, k) == bytes[1..][k] {
        assert Digit(v, k + 1) == bytes[k + 1];
      }
      BytesOfDigits(v / 256, bytes[1..]);
    }
  }

  lemma PointerRanges()
    ensures Power256(4) == 0x1_0000_0000 && Power256(8) == TWO_TO_THE_64
  {
    assert Power256(2) == 0x1_0000;
    assert Power256(6) == 0x1_0000_0000_0000;
  }

  /** Memory at a holds the bytes of p, lowest first, over the target's pointer width. */
  ghost predicate Stores(mem: Memory, width: nat, a: int, p: nat)
  {
    p < Power256(width) && forall k: nat :: k < width ==> HoldsDigit(mem, a, p, k)
  }

  predicate HoldsDigit(mem: Memory, a: int, p: nat, k: nat)
  {
    a + k in mem && mem[a + k] == Digit(p, k)
  }

  /** A pointer is read exactly when memory stores it. */
  lemma ReadPointerExactly(mem: Memory, width: nat, a: int, p: nat)
    ensures ReadPointer(mem, width, a) == Some(p) <==> Stores(mem, width, a, p)
  {
    if Mapped(mem, a, width) {
      var bytes := Slice(mem, a, width);
      DigitsOfBytes(bytes);
      if Stores(mem, width, a, p) {
        forall k: nat | k < width ensures Digit(p, k) == bytes[k] {
          assert HoldsDigit(mem, a, p, k);
        }
        BytesOfDigits(p, bytes);
      }
      if LittleEndian(bytes) == p {
        forall k: nat | k < width ensures HoldsDigit(mem, a, p, k) {
          assert Digit(p, k) == bytes[k];
        }
      }
    } else if Stores(mem, width, a, p) {
      forall i | a <= i < a + width ensures i in mem {
        assert HoldsDigit(mem, a, p, i - a);
      }
    }
  }

  /** One hop: the pointer stored at a is not null, and the offset is added to it modulo 2^64. */
  ghost predicate Hop(mem: Memory, width: nat, a: int, offset: int, b: int)
  {
    exists p: nat :: p != 0 && Stores(mem, width, a, p) && b == (p + offset) % TWO_TO_THE_64
  }

  /** The path follows the offsets, hop by hop. */
  ghost predicate Follows(mem: Memory, width: nat, path: seq<int>, offsets: seq<int>)
  {
    |path| == |offsets| + 1 && forall i :: 0 <= i < |offsets| ==> Hop(mem, width, path[i], offsets[i], path[i + 1])
  }

  ghost predicate Leading(mem: Memory, width: nat, a: int, offsets: seq<int>, x: int)
  {
    exists path :: Follows(mem, width, path, offsets) && path[0] == a && path[|offsets|] == x
  }

  lemma HopExactly(mem: Memory, width: nat, a: int, offset: int, b: int)
    ensures Hop(mem, width, a, offset, b) <==>
            match ReadPointer(mem, width, a)
            case None => false
            case Some(p) => p != 0 && b == (p + offset) % TWO_TO_THE_64
  {
    var read := ReadPointer(mem, width, a);
    if read.Some? { ReadPointerExactly(mem, width, a, read.value); }
    if p: nat :| p != 0 && Stores(mem, width, a, p) && b == (p + offset) % TWO_TO_THE_64 {
      ReadPointerExactly(mem, width, a, p);
    }
  }

  lemma LeadingStep(mem: Memory, width: nat, a: int, offsets: seq<int>, x: int)
    requires offsets != []
    ensures Leading(mem, width, a, offsets, x) <==>
            exists b :: Hop(mem, width, a, offsets[0], b) && Leading(mem, width, b, offsets[1..], x)
  {
    if path :| Follows(mem, width, path, offsets) && path[0] == a && path[|offsets|] == x {
      forall i | 0 <= i < |offsets| - 1 ensures Hop(mem, width, path[1..][i], offsets[1..][i], path[1..][i + 1]) {
        assert Hop(mem, width, path[i + 1], offsets[i + 1], path[i + 1 + 1]);
      }
      assert Follows(mem, width, path[1..], offsets[1..]);
      assert Hop(mem, width, path[0], offsets[0], path[0 + 1]);
    }
    if b :| Hop(mem, width, a, offsets[0], b) && Leading(mem, width, b, offsets[1..], x) {
      var rest :| Follows(mem, width, rest, offsets[1..]) && rest[0] == b && rest[|offsets[1..]|] == x;
      var path := [a] + rest;
      forall i | 0 <= i < |offsets| ensures Hop(mem, width, path[i], offsets[i], path[i + 1]) {
        if i > 0 { assert Hop(mem, width, rest[i - 1], offsets[1..][i - 1], rest[i - 1 + 1]); }
      }
      assert Follows(mem, width, path, offsets) && path[|offsets|] == x;
    }
  }

  /** Walking the offsets from an address ends at x exactly when a path of stored pointers leads there. */
  lemma {:induction false} WalkExactly(mem: Memory, width: nat, a: int, offsets: seq<int>, x: int)
    ensures Walk(mem, width, a, offsets) == Some(x) <==> Leading(mem, width, a, offsets, x)
    decreases offsets
  {
    if offsets == [] {
      if a == x { assert Follows(mem, width, [a], offsets); }
    } else {
      LeadingStep(mem, width, a, offsets, x);
      match ReadPointer(mem, width, a)
      case None =>
        forall b ensures !Hop(mem, width, a, offsets[0], b) { HopExactly(mem, width, a, offsets[0], b); }
      case Some(p) =>
        var next := (p + offsets[0]) % TWO_TO_THE_64;
        forall b ensures Hop(mem, width, a, offsets[0], b) <==> p != 0 && b == next {
          HopExactly(mem, width, a, offsets[0], b);
        }
        WalkExactly(mem, width, next, offsets[1..], x);
    }
  }

  /** Module k is the first whose name is this one, letter case aside. */
  predicate FirstNamed(modules: seq<ModuleInfo>, name: string, k: nat)
  {
    && k < |modules| && Text.SameButCase(modules[k].name, name)
    && forall j | 0 <= j < k :: !Text.SameButCase(modules[j].name, name)
  }

  lemma {:induction false} BaseOfExactly(modules: seq<ModuleInfo>, name: string)
    ensures (exists k: nat :: FirstNamed(modules, name, k) && BaseOf(modules, name) == modules[k].base)
            || (BaseOf(modules, name) == 0 && forall m :: m in modules ==> !Text.SameButCase(m.name, name))
    decreases modules
  {
    if modules != [] {
      Text.SameButCaseExactly(modules[0].name, name);
      BaseOfExactly(modules[1..], name);
      if SameName(modules[0].name, name) {
        assert FirstNamed(modules, name, 0);
      } else if k: nat :| FirstNamed(modules[1..], name, k) && BaseOf(modules[1..], name) == modules[1..][k].base {
        FirstNamedLater(modules, name, k);
      }
    }
  }

  lemma FirstNamedLater(modules: seq<ModuleInfo>, name: string, k: nat)
    requires modules != [] && !Text.SameButCase(modules[0].name, name) && FirstNamed(modules[1..], name, k)
    ensures FirstNamed(modules, name, k + 1) && modules[k + 1] == modules[1..][k]
  {
    forall j | 0 <= j < k + 1 ensures !Text.SameButCase(modules[j].name, name) {
      if j > 0 { assert modules[j] == modules[1..][j - 1]; }
    }
  }

  /** Where the chain starts: a fixed address other than zero, or an offset into a module that is loaded. */
  ghost predicate StartsAt(chain: Chain, modules: seq<ModuleInfo>, start: int)
  {
    if chain.moduleName == "" then chain.moduleOffset != 0 && start == chain.moduleOffset % TWO_TO_THE_64
    else exists k: nat :: FirstNamed(modules, chain.moduleName, k) && modules[k].base != 0
           && start == (modules[k].base + chain.moduleOffset) % TWO_TO_THE_64
  }

  /** A chain resolves to x exactly when a path of stored, non-null pointers leads from its start to x. */
  lemma ResolvedExactly(mem: Memory, width: nat, chain: Chain, modules: seq<ModuleInfo>, x: int)
    ensures Resolved(mem, width, chain, modules) == Some(x) <==>
            exists start :: StartsAt(chain, modules, start) && Leading(mem, width, start, chain.offsets, x)
  {
    var base := if chain.moduleName == "" then 0 else BaseOf(modules, chain.moduleName);
    var from := (base + chain.moduleOffset) % TWO_TO_THE_64;
    var starts := if chain.moduleName == "" then chain.moduleOffset != 0 else base != 0;
    BaseOfExactly(modules, chain.moduleName);
    forall start ensures StartsAt(chain, modules, start) <==> starts && start == from {
    }
    WalkExactly(mem, width, from, chain.offsets, x);
  }
}
