/**
 The page-table editor itself: `v2p`, `alloc_table` and `map_page`, over one array of physical words.

 Every load and store goes through the processor's own walk of the tables being edited (`Access`), so
 the editor works only while the tables still show its two windows: the direct map, and the kernel's
 own pages for the scratch pool.
 */
module PageEditor {
  import opened Arith
  import opened Options
  import opened PageTables

  /** The start of the canonical upper half, where the boot loader puts both windows. */
  const UPPER_HALF: int := 0xFFFF_8000_0000_0000

  /**
   The addresses the code depends on.  The direct map shows physical address `p` at `hhdm + p`, at
   least for the frames in `shown`; the kernel image shows `kernelPhys + d` at `kernelVirt + d`.
   `scratch` is the virtual address of the pool and `size` its number of tables; the root table and
   the pool also have frame numbers.
   */
  datatype Machine = Machine(cr3: Word, hhdm: Word, kernelPhys: Word, kernelVirt: Word,
                             scratch: Word, size: nat, frames: nat, root: nat, pool: nat, shown: set<nat>)
  {
    ghost predicate Valid() {
      && root < frames <= FRAME_LIMIT && cr3 == 4096 * root
      && hhdm % 4096 == 0 && UPPER_HALF <= hhdm && hhdm + 4096 * frames <= WORD_LIMIT
      && kernelPhys % 4096 == 0 && kernelVirt % 4096 == 0 && UPPER_HALF <= kernelVirt <= scratch
      && scratch - kernelVirt + kernelPhys == 4096 * pool
      && pool + size <= frames && scratch + 4096 * size <= WORD_LIMIT
      && (hhdm + 4096 * frames <= scratch || scratch + 4096 * size <= hhdm)
      && (forall f: nat :: f in shown ==> f < frames)
      && (forall f: nat :: pool <= f < pool + size ==> f in shown)
    }

    /** The same root, pool and windows, seen by frame and page number. */
    function Layout(): (c: Layout) {
      PageTables.Layout(root, frames, pool, size, shown, Vpn(hhdm), Vpn(scratch))
    }

    function V2p(v: Word): Word {
      (v - kernelVirt + kernelPhys) % WORD_LIMIT
    }

    /** The pointer to the top-level table, as computed from CR3. */
    function Root(hhdm: Word): (p: Word)
      requires Valid() && hhdm == this.hhdm
      ensures p == Direct(root, 0)
    {
      Quotient(Direct(root, 0), WORD_LIMIT, 0, Direct(root, 0));
      (cr3 + hhdm) % WORD_LIMIT
    }

    /** The direct-map address of entry `i` of table `t`. */
    function Direct(t: nat, i: nat): int {
      hhdm + 4096 * t + 8 * i
    }

    /** The kernel-image address of entry `i` of scratch table `k`. */
    function Scratch(k: nat, i: nat): int {
      scratch + 4096 * k + 8 * i
    }

    /** The physical word behind an aligned virtual address, for a supervisor write: where the walk leads. */
    function Access(mem: Memory, p: Word): Option<nat> {
      match Walk(mem, cr3, p)
      case Page(f, _, true, _) => if p % 8 == 0 then Some(512 * f + p % 4096 / 8) else None
      case _ => None
    }
  }

  // ---- Addresses and page numbers -------------------------------------------------------------------

  /** In the upper half page numbers follow addresses. */
  lemma UpperVpn(va: Word)
    requires UPPER_HALF <= va
    ensures Vpn(va) == va / 4096 - 0xF_FFF0_0000_0000
  {
    assert va / 4096 == 0x10_0000_0000 * 0xFFFF + (va / 4096 - 0xF_FFF0_0000_0000);
    Quotient(va / 4096, 0x10_0000_0000, 0xFFFF, va / 4096 - 0xF_FFF0_0000_0000);
  }

  /** Entry `i` of page `n` after an aligned base: its page number and its place in the page. */
  lemma UpperPage(base: Word, n: nat, i: nat)
    requires UPPER_HALF <= base && base % 4096 == 0 && i < 512 && base + 4096 * n + 4096 <= WORD_LIMIT
    ensures var p := base + 4096 * n + 8 * i;
            && Vpn(p) == Vpn(base) + n < VPN_LIMIT
            && p % 8 == 0 && p % 4096 / 8 == i
  {
    var p := base + 4096 * n + 8 * i;
    Quotient(p, 4096, base / 4096 + n, 8 * i);
    Quotient(8 * i, 8, i, 0);
    Quotient(p, 8, 512 * (base / 4096 + n) + i, 0);
    UpperVpn(p);
    UpperVpn(base);
  }

  lemma ScratchAligned(m: Machine)
    requires m.Valid()
    ensures m.scratch % 4096 == 0
  {
    var a, b := m.kernelVirt / 4096, m.kernelPhys / 4096;
    Quotient(m.scratch, 4096, a - b + m.pool, 0);
  }

  lemma LayoutFields(m: Machine)
    ensures m.Layout().frames == m.frames && m.Layout().pool == m.pool && m.Layout().size == m.size
    ensures m.Layout().root == m.root && m.Layout().shown == m.shown
  {
  }

  lemma LayoutValid(m: Machine)
    requires m.Valid()
    ensures m.Layout().Valid()
  {
    ScratchAligned(m);
    UpperVpn(m.hhdm);
    UpperVpn(m.scratch);
    var h, s := m.hhdm / 4096, m.scratch / 4096;
    assert m.hhdm == 4096 * h && m.scratch == 4096 * s;
  }

  /** The walk starts at the root table: the processor reads bits 51:12 of CR3. */
  lemma RootFrame(m: Machine)
    requires m.Valid()
    ensures Frame(m.cr3) == m.root
  {
    Quotient(m.cr3, 4096, m.root, 0);
    Quotient(m.root, FRAME_LIMIT, 0, m.root);
  }

  // ---- The windows ------------------------------------------------------------------------------------

  /** A direct-map pointer reaches the entry it names, while the windows hold. */
  lemma DirectAccess(m: Machine, mem: Memory, t: nat, i: nat)
    requires m.Valid() && WindowsHold(m.Layout(), mem) && t in m.shown && i < 512
    ensures 0 <= m.Direct(t, i) < WORD_LIMIT && m.Access(mem, m.Direct(t, i)) == Some(512 * t + i)
  {
    hide Vpn, Frame, Translate, Layout.Window;
    UpperPage(m.hhdm, t, i);
    RootFrame(m);
    DirectOnly(m, t);
    assert WalksTo(mem, m.root, Vpn(m.hhdm) + t, t);
  }

  lemma DirectOnly(m: Machine, t: nat)
    requires t in m.shown
    ensures m.Layout().Window(Vpn(m.hhdm) + t) == Some(t)
  {
    hide Vpn;
  }

  /** A scratch pointer reaches the pool's words, and `v2p` gives the table's physical address. */
  lemma ScratchAccess(m: Machine, mem: Memory, k: nat, i: nat)
    requires m.Valid() && WindowsHold(m.Layout(), mem) && k < m.size && i < 512
    ensures 0 <= m.Scratch(k, i) < WORD_LIMIT && m.Access(mem, m.Scratch(k, i)) == Some(512 * (m.pool + k) + i)
  {
    hide Vpn, Frame, Translate, Layout.Window;
    ScratchAligned(m);
    UpperPage(m.scratch, k, i);
    RootFrame(m);
    ScratchOnly(m, k);
    assert WalksTo(mem, m.root, Vpn(m.scratch) + k, m.pool + k);
  }

  /** A scratch page is not a direct-map page. */
  lemma ScratchOnly(m: Machine, k: nat)
    requires m.Valid() && k < m.size
    ensures m.Layout().Window(Vpn(m.scratch) + k) == Some(m.pool + k)
  {
    hide Vpn;
    LayoutValid(m);
    var c := m.Layout();
    assert c.direct <= c.scratch + k && c.scratch + k - c.direct in c.shown ==> c.scratch + k - c.direct < c.frames;
  }

  lemma ScratchPhysical(m: Machine, k: nat)
    requires m.Valid() && k < m.size
    ensures 0 <= m.Scratch(k, 0) < WORD_LIMIT && m.V2p(m.Scratch(k, 0)) == 4096 * (m.pool + k)
  {
    Quotient(4096 * (m.pool + k), WORD_LIMIT, 0, 4096 * (m.pool + k));
  }

  /** Both windows show the same words: the aliasing that `alloc_table` and `map_page` rely on. */
  lemma Aliased(m: Machine, mem: Memory, k: nat, i: nat)
    requires m.Valid() && WindowsHold(m.Layout(), mem) && k < m.size && i < 512
    ensures 0 <= m.Scratch(k, 0) < WORD_LIMIT && 0 <= m.V2p(m.Scratch(k, 0)) + m.hhdm + 8 * i < WORD_LIMIT
    ensures 0 <= m.Scratch(k, i) < WORD_LIMIT
    ensures m.Access(mem, m.Scratch(k, i)) == m.Access(mem, m.V2p(m.Scratch(k, 0)) + m.hhdm + 8 * i)
  {
    ScratchPhysical(m, k);
    ScratchAccess(m, mem, k, i);
    DirectAccess(m, mem, m.pool + k, i);
  }

  // ---- Entries and indices as the code computes them ------------------------------------------------

  /** The pointer computed from an entry is the table's address exactly when bits 63:52 are clear. */
  lemma FollowExact(e: Word)
    ensures e - e % 4096 == 4096 * Frame(e) <==> e < 0x10_0000_0000_0000
  {
    DivMod(e, 4096);
    DivMod(e / 4096, FRAME_LIMIT);
  }

  /** Set the two low bits: present and writable. */
  function Or3(x: Word): Word {
    x - x % 4 + 3
  }

  lemma LinkWord(f: nat)
    requires f < FRAME_LIMIT
    ensures Or3(4096 * f) == Link(f) == 4096 * f + 3
  {
    Quotient(4096 * f, 4, 1024 * f, 0);
  }

  lemma LeafWord(phys: Word)
    ensures Or3(phys - phys % 4096) == Leaf(phys) == phys - phys % 4096 + 3
  {
    var q := phys / 4096;
    DivMod(phys, 4096);
    Quotient(4096 * q, 4, 1024 * q, 0);
  }

  lemma Mod512(a: nat, b: nat)
    ensures (512 * a + b) % 512 == b % 512
  {
  }

  lemma IndexBits4(va: Word)
    ensures va / 0x80_0000_0000 % 512 == Index(Vpn(va), 4)
  {
    var q := va / 4096;
    var h, r := q / 0x10_0000_0000, q % 0x10_0000_0000;
    assert va / 0x80_0000_0000 == 512 * (1 * h) + r / 0x800_0000;
    Mod512(1 * h, r / 0x800_0000);
  }

  lemma IndexBits3(va: Word)
    ensures va / 0x4000_0000 % 512 == Index(Vpn(va), 3)
  {
    var q := va / 4096;
    var h, r := q / 0x10_0000_0000, q % 0x10_0000_0000;
    assert va / 0x4000_0000 == 512 * (0x200 * h) + r / 0x4_0000;
    Mod512(0x200 * h, r / 0x4_0000);
  }

  lemma IndexBits2(va: Word)
    ensures va / 0x20_0000 % 512 == Index(Vpn(va), 2)
  {
    var q := va / 4096;
    var h, r := q / 0x10_0000_0000, q % 0x10_0000_0000;
    assert va / 0x20_0000 == 512 * (0x4_0000 * h) + r / 0x200;
    Mod512(0x4_0000 * h, r / 0x200);
  }

  lemma IndexBits1(va: Word)
    ensures va / 0x1000 % 512 == Index(Vpn(va), 1)
  {
    var q := va / 4096;
    assert q == 512 * (0x800_0000 * (q / 0x10_0000_0000)) + q % 0x10_0000_0000;
    Mod512(0x800_0000 * (q / 0x10_0000_0000), q % 0x10_0000_0000);
  }

  /** The shifts and masks of the code select the same entries as the page number does. */
  lemma IndexBits(va: Word)
    ensures va / 0x80_0000_0000 % 512 == Index(Vpn(va), 4)
    ensures va / 0x4000_0000 % 512 == Index(Vpn(va), 3)
    ensures va / 0x20_0000 % 512 == Index(Vpn(va), 2)
    ensures va / 0x1000 % 512 == Index(Vpn(va), 1)
  {
    IndexBits4(va);
    IndexBits3(va);
    IndexBits2(va);
    IndexBits1(va);
  }

  // ---- One level of the walk ---------------------------------------------------------------------------

  /** What one level of the walk needs and gives, in one place. */
  lemma LevelFacts(c: Layout, s: Tables, t: nat, vpn: nat, level: nat)
    requires CanBuild(c, s, t, vpn, level) && level > 1
    ensures t < c.frames && t in c.shown && c.Valid() && |s.mem| == 512 * c.frames
    ensures Present(Entry(s.mem, t, Index(vpn, level))) || s.used < c.size
    ensures var s' := Descend(c, s, t, Index(vpn, level));
            var e := Entry(s'.mem, t, Index(vpn, level));
            && Present(e) && Followable(e) && Frame(e) < c.frames && Frame(e) in c.shown
            && CanBuild(c, s', Frame(e), vpn, level - 1)
            && Build(c, s', Frame(e), vpn, level - 1) == Build(c, s, t, vpn, level)
  {
    hide WellFormed, Entry, Index, TableAt, PageSize, Frame, Present, Descend;
    var p, i := Prefix(vpn, 4 - level), Index(vpn, level);
    CanBuildNext(c, s, t, vpn, level);
    BuildDescends(c, s, t, vpn, level);
    DescendTables(c, s, p, t, i);
    InMemory(c, s, p, t);
    InMemory(c, Descend(c, s, t, i), p + [i], Frame(Entry(Descend(c, s, t, i).mem, t, i)));
  }

  lemma InMemory(c: Layout, s: Tables, p: seq<nat>, t: nat)
    requires WellFormed(c, s) && IsPath(p) && TableAt(s.mem, c.root, p) == Some(t)
    ensures t < c.frames && t in c.shown
  {
  }

  /** Installing a table keeps the windows. */
  lemma DescendWindows(c: Layout, s: Tables, p: seq<nat>, t: nat, i: nat)
    requires CanDescend(c, s, p, t, i) && WindowsHold(c, s.mem)
    ensures t < c.frames && WindowsHold(c, Descend(c, s, t, i).mem)
  {
    hide WellFormed, TableAt, Entry, Present, Descend, Editable, PathWritable, Translate, Layout.Window;
    DescendTables(c, s, p, t, i);
    var m' := Descend(c, s, t, i).mem;
    forall v: nat ensures Translate(m', c.root, v) == Translate(s.mem, c.root, v) {
      DescendKeeps(c, s, p, t, i, v);
    }
  }

  /** Table `t` is used for `vpn` at this level, and building on from there arrives at `goal`. */
  ghost predicate Heading(c: Layout, s: Tables, t: nat, vpn: nat, level: nat, goal: Built) {
    CanBuild(c, s, t, vpn, level) && Build(c, s, t, vpn, level) == goal
  }

  /** `LevelFacts` for a path that heads for `goal`. */
  lemma HeadingFacts(c: Layout, s: Tables, t: nat, vpn: nat, level: nat, goal: Built)
    requires Heading(c, s, t, vpn, level, goal) && level > 1
    ensures t < c.frames && t in c.shown && c.Valid() && |s.mem| == 512 * c.frames
    ensures CanDescend(c, s, Prefix(vpn, 4 - level), t, Index(vpn, level))
    ensures Present(Entry(s.mem, t, Index(vpn, level))) || s.used < c.size
    ensures var s' := Descend(c, s, t, Index(vpn, level));
            var e := Entry(s'.mem, t, Index(vpn, level));
            && Present(e) && Followable(e) && Frame(e) < c.frames && Frame(e) in c.shown
            && WellFormed(c, s')
            && Heading(c, s', Frame(e), vpn, level - 1, goal)
  {
    hide WellFormed, Build, CanDescend, Descend, Index, Entry, Frame, Present, TableAt;
    LevelFacts(c, s, t, vpn, level);
    BuildDescends(c, s, t, vpn, level);
    DescendTables(c, s, Prefix(vpn, 4 - level), t, Index(vpn, level));
  }

  class Editor {
    const m: Machine
    const mem: array<Word>
    var used: nat

    ghost function State(): Tables
      reads this, mem
    {
      Tables(mem[..], used)
    }

    /** The tables are well formed and the windows hold. */
    ghost predicate Valid()
      reads this, mem
    {
      && m.Valid()
      && mem.Length == 512 * m.frames
      && WellFormed(m.Layout(), State())
      && WindowsHold(m.Layout(), mem[..])
    }

    /** Read through the tables as they stand. */
    method Load(p: Word) returns (e: Word)
      requires m.Access(mem[..], p).Some? && m.Access(mem[..], p).value < mem.Length
      ensures e == mem[m.Access(mem[..], p).value]
    {
      e := mem[m.Access(mem[..], p).value];
    }

    /** Write through the tables as they stand. */
    method Store(p: Word, e: Word)
      requires m.Access(mem[..], p).Some? && m.Access(mem[..], p).value < mem.Length
      modifies mem
      ensures mem[..] == old(mem[..])[old(m.Access(mem[..], p).value) := e]
    {
      var d := m.Access(mem[..], p).value;
      mem[d] := e;
    }

    /** Hand out the next scratch table, zeroed through its kernel address. */
    method AllocTable() returns (t: Word)
      requires Valid() && used < m.size
      modifies this, mem
      ensures used == old(used) + 1 && t == m.Scratch(old(used), 0)
      ensures mem[..] == ZeroTable(old(mem[..]), m.pool + old(used))
      ensures WindowsHold(m.Layout(), mem[..])
    {
      hide WellFormed, WindowsHold, Machine.Access;
      ghost var c, s, f := m.Layout(), State(), m.pool + used;
      ScratchPhysical(m, used);
      t := m.scratch + 4096 * used;
      used := used + 1;
      var i := 0;
      while i < 512
        invariant i <= 512 && used == old(used) + 1
        invariant WindowsHold(c, mem[..])
        invariant forall k :: 0 <= k < mem.Length ==> mem[k] == if 512 * f <= k < 512 * f + i then 0 else s.mem[k]
      {
        ScratchAccess(m, mem[..], old(used), i);
        ghost var before := mem[..];
        Store(t + 8 * i, 0);
        assert mem[..] == before[512 * f + i := 0];
        i := i + 1;
        UnreachedWindows(c, s, mem[..]);
      }
      assert mem[..] == ZeroTable(s.mem, f);
    }

    /** Link a table fresh from the pool behind entry `i` of table `t`. */
    method Install(table: Word, i: nat, ghost t: nat)
      requires Valid() && t in m.shown && i < 512 && table == m.Direct(t, 0) && used < m.size
      modifies this, mem
      ensures var f := m.pool + old(used);
              State() == Tables(Poke(ZeroTable(old(mem[..]), f), t, i, Link(f)), old(used) + 1)
    {
      hide WellFormed, WindowsHold, Machine.Access, ZeroTable, Link;
      ScratchPhysical(m, used);
      LinkWord(m.pool + used);
      var a := AllocTable();
      DirectAccess(m, mem[..], t, i);
      Store(table + 8 * i, Or3(m.V2p(a)));
    }

    /** Make sure that entry `i` of table `t` leads to a table, installing one if the present bit is clear. */
    method Ensure(table: Word, i: nat, ghost t: nat)
      requires Valid() && t in m.shown && i < 512 && table == m.Direct(t, 0)
      requires Present(Entry(mem[..], t, i)) || used < m.size
      modifies this, mem
      ensures m.Layout().Valid() && State() == Descend(m.Layout(), old(State()), t, i)
    {
      hide WellFormed, WindowsHold, Machine.Access, Machine.Layout, ZeroTable, Link, Poke;
      LayoutFields(m);
      LayoutValid(m);
      DirectAccess(m, mem[..], t, i);
      var e := Load(table + 8 * i);
      assert e == Entry(mem[..], t, i);
      if e % 2 == 0 {
        Install(table, i, t);
      }
    }

    /** The direct-map pointer to the table that entry `i` of table `t` leads to. */
    method Follow(table: Word, i: nat, hhdm: Word, ghost t: nat) returns (next: Word)
      requires m.Valid() && mem.Length == 512 * m.frames && WindowsHold(m.Layout(), mem[..])
      requires hhdm == m.hhdm && t in m.shown && i < 512 && table == m.Direct(t, 0)
      requires Followable(Entry(mem[..], t, i)) && Present(Entry(mem[..], t, i))
      requires Frame(Entry(mem[..], t, i)) < m.frames
      ensures next == m.Direct(Frame(Entry(mem[..], t, i)), 0)
    {
      hide WindowsHold, Machine.Access, Frame, Present, PageSize;
      DirectAccess(m, mem[..], t, i);
      var e := Load(table + 8 * i);
      assert e == Entry(mem[..], t, i);
      FollowExact(e);
      Quotient(m.Direct(Frame(e), 0), WORD_LIMIT, 0, m.Direct(Frame(e), 0));
      next := (e - e % 4096 + hhdm) % WORD_LIMIT;
    }

    /** One level of the walk for page `vpn`, ending at the table used on the next level. */
    method Level(table: Word, i: nat, hhdm: Word, ghost t: nat, ghost vpn: nat, ghost level: nat,
                 ghost goal: Built)
      returns (next: Word, ghost t': nat)
      requires Valid() && hhdm == m.hhdm && table == m.Direct(t, 0)
      requires Heading(m.Layout(), State(), t, vpn, level, goal) && level > 1 && i == Index(vpn, level)
      modifies this, mem
      ensures Valid() && next == m.Direct(t', 0)
      ensures Heading(m.Layout(), State(), t', vpn, level - 1, goal)
    {
      hide WellFormed, WindowsHold, CanBuild, Build, CanDescend, Descend, Index, Entry, Frame, Machine.Valid;
      ghost var c, s := m.Layout(), State();
      HeadingFacts(c, s, t, vpn, level, goal);
      DescendWindows(c, s, Prefix(vpn, 4 - level), t, i);
      Ensure(table, i, t);
      next := Follow(table, i, hhdm, t);
      t' := Frame(Entry(mem[..], t, i));
    }

    /** Write the leaf entry: the frame, present and writable. */
    method WriteLeaf(pt: Word, i: nat, phys: Word, ghost t: nat)
      requires m.Valid() && mem.Length == 512 * m.frames && WindowsHold(m.Layout(), mem[..])
      requires t in m.shown && i < 512 && pt == m.Direct(t, 0)
      modifies mem
      ensures mem[..] == Poke(old(mem[..]), t, i, Leaf(phys))
    {
      hide WindowsHold, Machine.Access, Leaf;
      DirectAccess(m, mem[..], t, i);
      LeafWord(phys);
      Store(pt + 8 * i, Or3(phys - phys % 4096));
    }

    /** The three table levels of the walk: the address of the last table, with every table in place. */
    method Tables3(pml4: Word, i4: nat, i3: nat, i2: nat, hhdm: Word, ghost vpn: nat, ghost goal: Built)
      returns (pt: Word, ghost t: nat)
      requires Valid() && hhdm == m.hhdm && pml4 == m.Direct(m.root, 0)
      requires Heading(m.Layout(), State(), m.root, vpn, 4, goal)
      requires i4 == Index(vpn, 4) && i3 == Index(vpn, 3) && i2 == Index(vpn, 2)
      modifies this, mem
      ensures Valid() && pt == m.Direct(t, 0)
      ensures Heading(m.Layout(), State(), t, vpn, 1, goal)
    {
      hide Heading, Index;
      var pdpt, pd;
      pdpt, t := Level(pml4, i4, hhdm, m.root, vpn, 4, goal);
      pd, t := Level(pdpt, i3, hhdm, t, vpn, 3, goal);
      pt, t := Level(pd, i2, hhdm, t, vpn, 2, goal);
    }

    /**
     Map the page of `virt` to the frame of `phys`: the tables become what `MapPaged` says, the hardware
     translates this page to that frame and every other address as before, and the windows still hold.
     */
    method MapPage(virt: Word, phys: Word, hhdm: Word)
      requires Valid() && hhdm == m.hhdm
      requires CanMap(m.Layout(), State(), virt) && Spares(m.Layout(), virt, phys)
      modifies this, mem
      ensures Valid()
      ensures State() == MapPaged(m.Layout(), old(State()), virt, phys)
      ensures forall va: Word {:trigger Walk(mem[..], m.cr3, va)} ::
        Walk(mem[..], m.cr3, va) ==
          if Vpn(va) == Vpn(virt) then
            Page(Frame(phys), 1, PathWritable(old(mem[..]), m.root, Vpn(virt), 4), false)
          else old(Walk(mem[..], m.cr3, va))
    {
      hide WellFormed, WindowsHold, CanMap, Build, MapPaged, Index, Vpn, Frame, PathWritable, Walk, Spares;
      ghost var c, s := m.Layout(), State();
      MapPagedWellFormed(c, s, virt, phys);
      MapPagedWindows(c, s, virt, phys);
      MapPageWalks(m, s, virt, phys);
      LeafIsBuilt(c, s, virt, phys);
      IndexBits(virt);
      var pml4Index := virt / 0x80_0000_0000 % 512;
      var pdptIndex := virt / 0x4000_0000 % 512;
      var pdIndex := virt / 0x20_0000 % 512;
      var ptIndex := virt / 0x1000 % 512;
      ghost var goal := Build(c, s, c.root, Vpn(virt), 4);
      var pt, t := Tables3(m.Root(hhdm), pml4Index, pdptIndex, pdIndex, hhdm, Vpn(virt), goal);
      Arrived(c, State(), t, Vpn(virt), goal);
      WriteLeaf(pt, ptIndex, phys, t);
    }
  }

  lemma Arrived(c: Layout, s: Tables, t: nat, vpn: nat, goal: Built)
    requires Heading(c, s, t, vpn, 1, goal)
    ensures goal == Built(s, t) && t < c.frames && t in c.shown
  {
    InMemory(c, s, Prefix(vpn, 3), t);
  }

  /** `MapPaged` is the leaf written into the table that `Build` arrives at. */
  lemma LeafIsBuilt(c: Layout, s: Tables, va: Word, phys: Word)
    requires CanMap(c, s, va)
    ensures CanBuild(c, s, c.root, Vpn(va), 4)
    ensures Heading(c, s, c.root, Vpn(va), 4, Build(c, s, c.root, Vpn(va), 4))
    ensures var b := Build(c, s, c.root, Vpn(va), 4);
            && 512 * b.leaf + Index(Vpn(va), 1) < |b.s.mem|
            && MapPaged(c, s, va, phys) == b.s.(mem := Poke(b.s.mem, b.leaf, Index(Vpn(va), 1), Leaf(phys)))
  {
    hide WellFormed, Index, Frame, Vpn, Entry, Leaf, Editable;
    assert Prefix(Vpn(va), 0) == [];
    var b := Build(c, s, c.root, Vpn(va), 4);
    LeafWellFormed(c, b.s, b.leaf, Vpn(va), Leaf(phys));
  }

  /** What the processor makes of every address before and after a call. */
  lemma MapPageWalks(m: Machine, s: Tables, virt: Word, phys: Word)
    requires m.Valid() && CanMap(m.Layout(), s, virt)
    ensures forall va: Word {:trigger Walk(MapPaged(m.Layout(), s, virt, phys).mem, m.cr3, va)} ::
      Walk(MapPaged(m.Layout(), s, virt, phys).mem, m.cr3, va) ==
        if Vpn(va) == Vpn(virt) then Page(Frame(phys), 1, PathWritable(s.mem, m.root, Vpn(virt), 4), false)
        else Walk(s.mem, m.cr3, va)
  {
    hide CanMap, MapPaged, PathWritable, Walk, Frame, Vpn;
    RootFrame(m);
    forall va: Word
      ensures Walk(MapPaged(m.Layout(), s, virt, phys).mem, m.cr3, va) ==
        if Vpn(va) == Vpn(virt) then Page(Frame(phys), 1, PathWritable(s.mem, m.root, Vpn(virt), 4), false)
        else Walk(s.mem, m.cr3, va)
    {
      MapPagedWalk(m.Layout(), s, virt, phys, m.cr3, va);
    }
  }

  /** The call made while booting spares the windows: the direct-map page of 0xB8000 gets its own frame. */
  lemma BootCall(m: Machine)
    requires m.Valid() && 0xB8 < m.frames
    ensures 0 <= m.hhdm + 0xB8000 < WORD_LIMIT && Spares(m.Layout(), m.hhdm + 0xB8000, 0xB8000)
  {
    hide Vpn, Frame;
    LayoutValid(m);
    UpperPage(m.hhdm, 0xB8, 0);
    BootFrame();
    var c := m.Layout();
    assert c.scratch <= c.direct + 0xB8 < c.scratch + c.size ==> false;
  }

  lemma BootFrame()
    ensures Frame(0xB8000) == 0xB8
  {
  }
}
