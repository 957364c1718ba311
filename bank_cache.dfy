/** The drive CPU's bank cache: a direct pointer into the memory of one bank
    together with the address window [start, limit) in which the interpreter
    may use it, refreshed from the per-page tables on a control transfer
    (the JUMP macro). */
module BankCache {
  import opened DriveTypes

  /** An entry of read_base_tab_ptr: a direct pointer to a bank's memory, or
      NULL for a page that is only reachable through the read functions. The
      pointer is identified by the bank it points into. */
  datatype BankPtr = NoBank | Bank(id: nat)

  /** The two 256-entry page tables: the base pointers and the packed windows,
      start in the high and limit in the low 16 bits of a 32-bit word. */
  datatype Tables = Tables(base: seq<BankPtr>, limits: seq<nat>)

  ghost predicate TablesValid(t: Tables)
  {
    |t.base| == 256 && |t.limits| == 256 &&
    forall p :: 0 <= p < 256 ==> t.limits[p] < 0x1_0000_0000
  }

  /** The cached d_bank_base, d_bank_start and d_bank_limit. */
  datatype Cache = Cache(base: BankPtr, start: nat, limit: nat)

  /** The cache drivecpu_setup_context leaves: no pointer, empty window. */
  const EmptyCache := Cache(NoBank, 0, 0)

  function PageOf(addr: int): int
  {
    addr / 256
  }

  predicate InWindow(c: Cache, addr: int)
  {
    c.start <= addr < c.limit
  }

  /** The cache a table look-up of page `p` produces. */
  function Lookup(t: Tables, p: nat): (r: Cache)
    requires TablesValid(t) && p < 256
    ensures r.base == t.base[p]
    ensures r.base == NoBank ==> r == EmptyCache
    ensures r.base != NoBank ==>
      r.limit == t.limits[p] % 0x1_0000 && r.start == t.limits[p] / 0x1_0000
    ensures r.limit < 0x1_0000 && r.start < 0x1_0000
  {
    if t.base[p] == NoBank then EmptyCache
    else Cache(t.base[p], t.limits[p] / 0x1_0000, t.limits[p] % 0x1_0000)
  }

  /** The bank cache after JUMP(addr): kept while `addr` lies inside the
      cached window, looked up again from `addr`'s page otherwise. */
  function JumpCache(c: Cache, t: Tables, addr: Word): (r: Cache)
    requires TablesValid(t)
    ensures InWindow(c, addr) ==> r == c
    ensures !InWindow(c, addr) ==> r == Lookup(t, PageOf(addr))
  {
    if addr >= c.limit || addr < c.start then Lookup(t, PageOf(addr)) else c
  }

  /** A page without a direct pointer leaves an empty window: every later
      JUMP looks the tables up again, whatever its target. */
  lemma NoPointerEmptiesWindow(c: Cache, t: Tables, addr: Word, next: Word)
    requires TablesValid(t) && !InWindow(c, addr) && t.base[PageOf(addr)] == NoBank
    ensures JumpCache(c, t, addr) == EmptyCache
    ensures JumpCache(JumpCache(c, t, addr), t, next) == Lookup(t, PageOf(next))
  {
  }

  /** JUMP to the same address twice refreshes the cache only once. */
  lemma JumpIdempotent(c: Cache, t: Tables, addr: Word)
    requires TablesValid(t)
    ensures JumpCache(JumpCache(c, t, addr), t, addr) == JumpCache(c, t, addr)
  {
  }

  /** The tables are consistent when every address inside a page's window lies
      in a page with the same direct pointer: the condition under which the
      fast path may serve the whole window. */
  ghost predicate Consistent(t: Tables)
    requires TablesValid(t)
  {
    forall p: nat, a: int {:trigger Lookup(t, p), t.base[PageOf(a)]} ::
      p < 256 && t.base[p] != NoBank && InWindow(Lookup(t, p), a) ==>
        0 <= PageOf(a) < 256 && t.base[PageOf(a)] == t.base[p]
  }

  /** A cache is coherent when it is the empty cache or what a look-up of some
      page produced. */
  ghost predicate Coherent(c: Cache, t: Tables)
    requires TablesValid(t)
  {
    c == EmptyCache || exists p: nat :: p < 256 && c == Lookup(t, p)
  }

  /** Bank-cache correctness. From a coherent cache and consistent tables,
      JUMP(addr) leaves a coherent cache; whenever its window then covers
      `addr` the cached pointer is `addr`'s own page pointer; and an address
      whose page has no direct pointer is never inside the window, so every
      access to it goes through the read functions. */
  lemma JumpSound(c: Cache, t: Tables, addr: Word)
    requires TablesValid(t) && Consistent(t) && Coherent(c, t)
    ensures Coherent(JumpCache(c, t, addr), t)
    ensures InWindow(JumpCache(c, t, addr), addr) ==> JumpCache(c, t, addr).base == t.base[PageOf(addr)]
    ensures t.base[PageOf(addr)] == NoBank ==> !InWindow(JumpCache(c, t, addr), addr)
  {
    if InWindow(c, addr) {
      assert c != EmptyCache;
      var p: nat :| p < 256 && c == Lookup(t, p);
      assert t.base[p] != NoBank;
      assert t.base[PageOf(addr)] == t.base[p];
    } else {
      assert Lookup(t, PageOf(addr)) == JumpCache(c, t, addr);
    }
  }
}
