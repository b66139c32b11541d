/** _malloca and _freea of malloc.h: a marker in front of each block tells stack from heap. */
module Malloca {
  import opened Bits

  const THRESHOLD: nat := 1024
  const STACK_MARKER: nat := 0xCCCC
  const HEAP_MARKER: nat := 0xDDDD

  // ----- A 32-bit marker in byte memory

  function Store32(mem: map<nat, nat>, at: nat, v: nat): map<nat, nat> {
    var v1, v2, v3 := v / 0x100, v / 0x100 / 0x100, v / 0x100 / 0x100 / 0x100;
    mem[at := v % 0x100][at + 1 := v1 % 0x100][at + 2 := v2 % 0x100][at + 3 := v3 % 0x100]
  }

  function Load8(mem: map<nat, nat>, at: nat): nat { if at in mem then mem[at] else 0 }

  function Load32(mem: map<nat, nat>, at: nat): nat {
    Load8(mem, at) + 0x100 * (Load8(mem, at + 1) + 0x100 * (Load8(mem, at + 2) + 0x100 * Load8(mem, at + 3)))
  }

  lemma LoadStored(mem: map<nat, nat>, at: nat, v: nat)
    requires v < 0x1_0000_0000
    ensures Load32(Store32(mem, at, v), at) == v
  {
  }

  lemma WriteElsewhere(mem: map<nat, nat>, at: nat, v: nat, other: nat)
    requires at < other || other + 4 <= at
    ensures Load32(mem[at := v], other) == Load32(mem, other)
  {
  }

  lemma StoreElsewhere(mem: map<nat, nat>, at: nat, v: nat, other: nat)
    requires other + 4 <= at || at + 4 <= other
    ensures Load32(Store32(mem, at, v), other) == Load32(mem, other)
  {
  }

  // ----- The program's view of its blocks

  /** A block handed out by _malloca: base is what malloc or _alloca returned, size what was asked for. */
  datatype Block = Block(base: nat, size: nat, heap: bool)

  predicate InLog(log: seq<Block>, releases: seq<nat>) {
    forall k :: 0 <= k < |releases| ==> releases[k] < |log|
  }

  /** The pointers free must have received, given the blocks passed to _freea, in order. */
  function FreedBases(log: seq<Block>, releases: seq<nat>): seq<nat>
    requires InLog(log, releases)
    decreases |releases|
  {
    if releases == [] then []
    else
      var rest, b := releases[..|releases| - 1], log[releases[|releases| - 1]];
      FreedBases(log, rest) + if b.heap then [b.base] else []
  }

  lemma {:induction false} FreedBasesExtend(log: seq<Block>, b: Block, releases: seq<nat>)
    requires InLog(log, releases)
    ensures FreedBases(log + [b], releases) == FreedBases(log, releases)
    decreases |releases|
  {
    if releases != [] {
      FreedBasesExtend(log, b, releases[..|releases| - 1]);
    }
  }

  /** free receives p exactly when some released block is a heap block that malloc returned as p. */
  lemma {:induction false} FreedExactly(log: seq<Block>, releases: seq<nat>, p: nat)
    requires InLog(log, releases)
    ensures p in FreedBases(log, releases) <==> exists i :: i in releases && log[i].heap && log[i].base == p
    decreases |releases|
  {
    if releases != [] {
      var rest, last := releases[..|releases| - 1], releases[|releases| - 1];
      FreedExactly(log, rest, p);
      assert releases == rest + [last];
      assert forall i :: i in releases <==> i in rest || i == last;
    }
  }

  /** Each block is passed to _freea at most once, and the heap blocks passed to it are the dead ones. */
  ghost predicate Accounted(log: seq<Block>, releases: seq<nat>, dead: set<nat>) {
    && InLog(log, releases) && NoRepeats(releases) && (forall i :: i in dead ==> i < |log|)
    && forall i: nat :: i < |log| && log[i].heap ==> (i in releases <==> i in dead)
  }

  lemma AccountAllocate(log: seq<Block>, releases: seq<nat>, dead: set<nat>, b: Block)
    requires Accounted(log, releases, dead)
    ensures Accounted(log + [b], releases, dead) && FreedBases(log + [b], releases) == FreedBases(log, releases)
  {
    FreedBasesExtend(log, b, releases);
  }

  lemma AccountRelease(log: seq<Block>, releases: seq<nat>, dead: set<nat>, i: nat)
    requires Accounted(log, releases, dead) && i < |log| && i !in dead && i !in releases
    ensures Accounted(log, releases + [i], if log[i].heap then dead + {i} else dead)
    ensures FreedBases(log, releases + [i]) == FreedBases(log, releases) + if log[i].heap then [log[i].base] else []
  {
    assert (releases + [i])[..|releases|] == releases;
  }

  lemma AccountFrame(log: seq<Block>, releases: seq<nat>, dead: set<nat>, blocks: set<nat>)
    requires Accounted(log, releases, dead) && forall i :: i in blocks ==> i < |log| && !log[i].heap
    ensures Accounted(log, releases, dead + blocks)
  {
  }

  predicate NoRepeats(s: seq<nat>) {
    forall i, j :: 0 <= i < j < |s| ==> s[i] != s[j]
  }

  /** Memory of block i is still taken: it has neither been freed nor been popped off the stack. */
  predicate Reserved(log: seq<Block>, dead: set<nat>, i: int) {
    0 <= i < |log| && i !in dead
  }

  predicate Apart(m: nat, b: Block, base: nat, n: nat) {
    b.base + m + b.size <= base || base + n <= b.base
  }

  /** Reserved blocks do not overlap. */
  ghost predicate Separate(m: nat, log: seq<Block>, dead: set<nat>) {
    && (forall i :: 0 <= i < |log| ==> log[i].base > 0)
    && forall i, j :: Reserved(log, dead, i) && Reserved(log, dead, j) && i != j ==>
         Apart(m, log[i], log[j].base, m + log[j].size)
  }

  /** Every reserved block still carries its marker. */
  ghost predicate Marked(mem: map<nat, nat>, log: seq<Block>, dead: set<nat>) {
    forall i :: Reserved(log, dead, i) ==>
      Load32(mem, log[i].base) == if log[i].heap then HEAP_MARKER else STACK_MARKER
  }

  /** Every heap block still reserved is owned by the program. */
  ghost predicate Owned(heap: set<nat>, log: seq<Block>, dead: set<nat>) {
    forall i :: Reserved(log, dead, i) && log[i].heap ==> log[i].base in heap
  }

  /** What malloc and _alloca promise of the n bytes they return at base. */
  ghost predicate Available(m: nat, log: seq<Block>, dead: set<nat>, base: nat, n: nat) {
    base > 0 && forall i :: Reserved(log, dead, i) ==> Apart(m, log[i], base, n)
  }

  lemma ReservedExtend(log: seq<Block>, dead: set<nat>, b: Block, i: int)
    ensures i < |log| ==> (Reserved(log + [b], dead, i) <==> Reserved(log, dead, i))
  {
  }

  lemma SeparateExtend(m: nat, log: seq<Block>, dead: set<nat>, b: Block)
    requires Separate(m, log, dead) && Available(m, log, dead, b.base, b.size + m)
    ensures Separate(m, log + [b], dead)
  {
    forall i, j | Reserved(log + [b], dead, i) && Reserved(log + [b], dead, j) && i != j
      ensures Apart(m, (log + [b])[i], (log + [b])[j].base, m + (log + [b])[j].size)
    {
      ReservedExtend(log, dead, b, i);
      ReservedExtend(log, dead, b, j);
    }
  }

  /** Handing out a block stores its marker without touching the markers of the others. */
  lemma MarkedExtend(m: nat, mem: map<nat, nat>, log: seq<Block>, dead: set<nat>, b: Block)
    requires Marked(mem, log, dead) && Available(m, log, dead, b.base, b.size + m) && m >= 4
    ensures Marked(Store32(mem, b.base, if b.heap then HEAP_MARKER else STACK_MARKER), log + [b], dead)
  {
    var v := if b.heap then HEAP_MARKER else STACK_MARKER;
    LoadStored(mem, b.base, v);
    hide Store32, Load32;
    forall i | Reserved(log + [b], dead, i)
      ensures Load32(Store32(mem, b.base, v), (log + [b])[i].base)
           == if (log + [b])[i].heap then HEAP_MARKER else STACK_MARKER
    {
      if i < |log| {
        ReservedExtend(log, dead, b, i);
        StoreElsewhere(mem, b.base, v, log[i].base);
      }
    }
  }

  lemma OwnedExtend(heap: set<nat>, log: seq<Block>, dead: set<nat>, b: Block)
    requires Owned(heap, log, dead) && (b.heap ==> b.base in heap)
    ensures Owned(heap, log + [b], dead)
  {
    forall i | Reserved(log + [b], dead, i) && (log + [b])[i].heap ensures (log + [b])[i].base in heap {
      ReservedExtend(log, dead, b, i);
    }
  }

  lemma MarkedOutside(m: nat, mem: map<nat, nat>, log: seq<Block>, dead: set<nat>, at: nat, v: nat)
    requires Marked(mem, log, dead) && m >= 4 && forall i :: Reserved(log, dead, i) ==> Apart(m, log[i], at, 1)
    ensures Marked(mem[at := v], log, dead)
  {
    hide Load32;
    forall j | Reserved(log, dead, j) ensures Load32(mem[at := v], log[j].base) == Load32(mem, log[j].base) {
      WriteElsewhere(mem, at, v, log[j].base);
    }
  }

  /** A store inside a block of the program leaves every marker alone. */
  lemma MarkedAfterWrite(m: nat, mem: map<nat, nat>, log: seq<Block>, dead: set<nat>, i: nat, off: nat, v: nat)
    requires Marked(mem, log, dead) && Separate(m, log, dead) && m >= 4
    requires Reserved(log, dead, i) && off < log[i].size
    ensures Marked(mem[log[i].base + m + off := v], log, dead)
  {
    hide Load32;
    forall j | Reserved(log, dead, j)
      ensures Load32(mem[log[i].base + m + off := v], log[j].base) == Load32(mem, log[j].base)
    {
      assert i == j || Apart(m, log[i], log[j].base, m + log[j].size);
      WriteElsewhere(mem, log[i].base + m + off, v, log[j].base);
    }
  }

  /** When some blocks are no longer reserved, those left stay separate, marked and owned. */
  lemma Unreserve(m: nat, mem: map<nat, nat>, heap: set<nat>, log: seq<Block>, dead: set<nat>, more: set<nat>)
    requires Separate(m, log, dead) && Marked(mem, log, dead) && Owned(heap, log, dead)
    ensures Separate(m, log, dead + more) && Marked(mem, log, dead + more) && Owned(heap, log, dead + more)
  {
    hide Load32;
    assert forall j :: Reserved(log, dead + more, j) ==> Reserved(log, dead, j);
  }

  /** The marker of a reserved block tells stack from heap; freeing a heap block takes nothing from the others. */
  lemma Released(m: nat, mem: map<nat, nat>, heap: set<nat>, log: seq<Block>, dead: set<nat>, i: nat)
    requires m > 0 && Reserved(log, dead, i)
    requires Separate(m, log, dead) && Marked(mem, log, dead) && Owned(heap, log, dead)
    ensures Load32(mem, log[i].base) == if log[i].heap then 0xDDDD else 0xCCCC
    ensures log[i].heap ==> log[i].base in heap && Owned(heap - {log[i].base}, log, dead + {i})
  {
    hide Load32;
    forall j | Reserved(log, dead + {i}, j) && log[j].heap
      ensures log[j].base in heap && (log[i].heap ==> log[j].base != log[i].base)
    {
      assert Reserved(log, dead, j);
      assert Apart(m, log[i], log[j].base, m + log[j].size);
    }
  }

  class Program {
    /** Bits in a size_t, and bytes reserved for the marker. */
    const width: nat
    const marker: nat

    var mem: map<nat, nat>
    /** The blocks malloc has given out and free has not taken back. */
    var heap: set<nat>
    /** The pointers passed to free so far. */
    var freed: seq<nat>
    /** Every block _malloca returned, and the blocks passed to _freea, in order. */
    ghost var log: seq<Block>
    ghost var releases: seq<nat>
    /** The heap blocks freed and the stack blocks whose function has returned. */
    ghost var dead: set<nat>

    constructor (width: nat, marker: nat)
      requires (width == 32 && marker == 8) || (width == 64 && marker == 16)
      ensures Valid() && log == [] && releases == [] && freed == [] && dead == {}
      ensures this.width == width && this.marker == marker
    {
      this.width, this.marker := width, marker;
      mem, heap, freed, log, releases, dead := map[], {}, [], [], [], {};
    }

    /** free has received exactly the heap blocks passed to _freea, each once, by the pointer malloc returned;
      * and every block still reserved is separate, marked and, if on the heap, not yet freed.
      */
    ghost predicate Valid()
      reads this
    {
      && ((width == 32 && marker == 8) || (width == 64 && marker == 16))
      && Separate(marker, log, dead) && Marked(mem, log, dead) && Owned(heap, log, dead)
      && Accounted(log, releases, dead) && freed == FreedBases(log, releases)
    }

    /** _malloca(size), when the allocator it calls answers with base; only malloc may answer NULL.
      * Exactly one block is handed out, on the heap if it is above the threshold.
      */
    method Allocate(size: nat, base: nat) returns (p: nat, ghost room: int)
      requires Valid() && size + marker < Pow2(width)
      requires (base == 0 && size + marker > THRESHOLD) || Available(marker, log, dead, base, size + marker)
      modifies this
      ensures Valid() && releases == old(releases) && dead == old(dead) && freed == old(freed)
      ensures base == 0 ==> p == 0 && log == old(log)
      ensures base != 0 ==> p == base + marker && log == old(log) + [Block(base, size, size + marker > 1024)]
      ensures base != 0 ==> room == Usable(width, marker, size) == size
    {
      hide Pow2, Separate, Marked, FreedBases, Available, Accounted;
      SmallMod(size + marker, Pow2(width));
      var n := (size + marker) % Pow2(width);
      // what the allocator gave, from p on
      room := base + n - (base + marker);
      if n <= THRESHOLD {
        p := Mark(base, STACK_MARKER, Block(base, size, false));
      } else {
        if base != 0 { heap := heap + {base}; }
        p := Mark(base, HEAP_MARKER, Block(base, size, true));
      }
    }

    /** _MarkAllocaS(base, m); b is the block being handed out. */
    method Mark(base: nat, m: nat, ghost b: Block) returns (p: nat)
      requires Valid() && b.base == base && m == if b.heap then HEAP_MARKER else STACK_MARKER
      requires base == 0 || Available(marker, log, dead, base, b.size + marker)
      requires base != 0 && b.heap ==> base in heap
      modifies this`mem, this`log
      ensures Valid()
      ensures base == 0 ==> p == 0 && log == old(log)
      ensures base != 0 ==> p == base + marker && log == old(log) + [b]
    {
      if base != 0 {
        SeparateExtend(marker, log, dead, b);
        MarkedExtend(marker, mem, log, dead, b);
        OwnedExtend(heap, log, dead, b);
        AccountAllocate(log, releases, dead, b);
        hide Separate, Marked, Owned, FreedBases, Available, Accounted;
        mem := Store32(mem, base, m);
        log := log + [b];
        p := base + marker;
      } else {
        p := 0;
      }
    }

    /** The program stores v at offset off of block i, which is still its own. */
    method Write(ghost i: nat, p: nat, off: nat, v: nat)
      requires Valid() && i < |log| && i !in dead && p == log[i].base + marker && off < log[i].size
      modifies this`mem
      ensures Valid()
      ensures mem == old(mem)[p + off := v]
    {
      MarkedAfterWrite(marker, mem, log, dead, i, off, v);
      hide Separate, Marked, Owned, FreedBases, Accounted;
      mem := mem[p + off := v];
    }

    /** A byte outside every reserved block changes: popped stack and freed heap serve other purposes. */
    method WriteOutside(at: nat, v: nat)
      requires Valid() && forall i :: Reserved(log, dead, i) ==> Apart(marker, log[i], at, 1)
      modifies this`mem
      ensures Valid()
      ensures mem == old(mem)[at := v]
    {
      MarkedOutside(marker, mem, log, dead, at, v);
      hide Separate, Marked, Owned, FreedBases, Accounted;
      mem := mem[at := v];
    }

    /** Functions return: the stack blocks they own are gone, and the stack may be used again. */
    method EndFrame(ghost blocks: set<nat>)
      requires Valid() && forall i :: i in blocks ==> i < |log| && !log[i].heap
      modifies this`dead
      ensures Valid()
      ensures dead == old(dead) + blocks
    {
      Unreserve(marker, mem, heap, log, dead, blocks);
      AccountFrame(log, releases, dead, blocks);
      hide Separate, Marked, Owned, FreedBases, Accounted;
      dead := dead + blocks;
    }

    /** free(base): base must be a block malloc returned that has not been freed. */
    method Free(base: nat)
      requires base in heap
      modifies this`heap, this`freed
      ensures heap == old(heap) - {base} && freed == old(freed) + [base]
    {
      heap := heap - {base};
      freed := freed + [base];
    }

    /** _freea(p) for NULL, for a live block i that was not released before, or for a pointer that is no block and is
      * not marked as being on the heap, which is left alone.
      */
    method Freea(ghost block: bool, ghost i: nat, p: nat)
      requires Valid()
      requires p != 0 ==> marker <= p
      requires p != 0 && block ==> i < |log| && i !in dead && i !in releases && p == log[i].base + marker
      requires p != 0 && !block ==> Load32(mem, p - marker) != HEAP_MARKER
      modifies this
      ensures Valid() && log == old(log) && mem == old(mem)
      ensures releases == if p != 0 && block then old(releases) + [i] else old(releases)
      ensures dead == if p != 0 && block && log[i].heap then old(dead) + {i} else old(dead)
      ensures freed == if p != 0 && block && log[i].heap then old(freed) + [log[i].base] else old(freed)
    {
      hide Separate, Marked, Owned, FreedBases, Accounted, Load32;
      if p != 0 {
        if block {
          assert Reserved(log, dead, i);
          Released(marker, mem, heap, log, dead, i);
          Unreserve(marker, mem, heap, log, dead, {i});
          AccountRelease(log, releases, dead, i);
        }
        var q := p - marker;
        var m := Load32(mem, q);
        if m == HEAP_MARKER {
          Free(q);
          dead := dead + {i};
        }
        releases := if block then releases + [i] else releases;
      }
    }
  }

  lemma ThresholdFits(width: nat)
    requires width == 32 || width == 64
    ensures THRESHOLD < Pow2(width)
  {
    assert Pow2(5) == 32;
    Pow2Add(5, 5);
    Pow2Mono(10, width);
    Pow2Mono(11, width);
  }

  lemma NewBlock(log: seq<Block>, releases: seq<nat>, dead: set<nat>)
    requires Accounted(log, releases, dead)
    ensures |log| !in dead && |log| !in releases
  {
  }

  /** A later activation gets the address of a stack block whose function has returned, with or without _freea, and
    * whatever was left there since, a heap marker included: the new block is told to be on the stack all the same.
    */
  method LaterActivation(p: Program, ghost i: nat, base: nat, size: nat)
    requires p.Valid() && i < |p.log| && i in p.dead && !p.log[i].heap && base == p.log[i].base
    requires Available(p.marker, p.log, p.dead, base, size + p.marker) && size + p.marker <= THRESHOLD
    modifies p
    ensures p.Valid() && p.freed == old(p.freed) && p.dead == old(p.dead)
    ensures p.log == old(p.log) + [Block(base, size, false)] && p.releases == old(p.releases) + [|old(p.log)|]
  {
    ThresholdFits(p.width);
    AvailableBase(p.marker, p.log, p.dead, base, size + p.marker);
    ghost var next := |p.log|;
    NewBlock(p.log, p.releases, p.dead);
    hide *;
    var a, _ := p.Allocate(size, base);
    p.Freea(true, next, a);
  }

  lemma AvailableBase(m: nat, log: seq<Block>, dead: set<nat>, base: nat, n: nat)
    requires Available(m, log, dead, base, n)
    ensures base > 0
  {
  }

  // ----- When the block is large enough

  /** The bytes the program may use of a block requested with size, with size_t arithmetic of the given width. */
  function Usable(width: nat, marker: nat, size: nat): int {
    (size + marker) % Pow2(width) - marker
  }

  /** The block holds what was asked for exactly when size plus marker is a size_t. */
  lemma UsableCoversRequest(width: nat, marker: nat, size: nat)
    requires marker < Pow2(width) && size < Pow2(width) && marker > 0
    ensures Usable(width, marker, size) >= size <==> size + marker < Pow2(width)
    ensures Usable(width, marker, size) == if size + marker < Pow2(width) then size else size - Pow2(width)
  {
    if size + marker < Pow2(width) {
      SmallMod(size + marker, Pow2(width));
    } else {
      DivModUnique(size + marker, Pow2(width), 1, size + marker - Pow2(width));
    }
  }
}
