/**
 Four-level page tables in one flat physical memory, at the level of words.

 The hardware side (`Walk`) follows section 4.5 of the Intel SDM, volume 3A.  The editor side
 (`MapPaged`) is what arch/x86_64/paging.c does to that memory.  A table is named by its frame
 number; word `512 * t + i` of the memory is entry `i` of table `t`.
 */
module PageTables {
  import opened Arith
  import opened Options

  const WORD_LIMIT: int := 0x1_0000_0000_0000_0000
  const VPN_LIMIT: int := 0x10_0000_0000
  const FRAME_LIMIT: int := 0x100_0000_0000

  type Word = x: int | 0 <= x < 0x1_0000_0000_0000_0000
  type Memory = seq<Word>

  // ---- Entries -----------------------------------------------------------------------------

  predicate Present(e: Word) { e % 2 == 1 }

  predicate Writable(e: Word) { e / 2 % 2 == 1 }

  predicate User(e: Word) { e / 4 % 2 == 1 }

  /** Bit 7: the entry maps a large page (or is malformed, at the top level). */
  predicate PageSize(e: Word) { e / 128 % 2 == 1 }

  /** Bits 51:12. */
  function Frame(e: Word): (f: nat) { e / 4096 % 0x100_0000_0000 }

  /** The bits of a frame number shifted into place with the two low bits set. */
  lemma LinkBits(f: nat)
    ensures var e := 4096 * f + 3; e % 2 == 1 && e / 2 % 2 == 1 && e / 4 % 2 == 0 && e / 128 % 2 == 0 && e / 4096 == f
  {
    var e := 4096 * f + 3;
    Quotient(e, 2, 2048 * f + 1, 1);
    Quotient(2048 * f + 1, 2, 1024 * f, 1);
    Quotient(e, 4, 1024 * f, 3);
    Quotient(1024 * f, 2, 512 * f, 0);
    Quotient(e, 128, 32 * f, 3);
    Quotient(32 * f, 2, 16 * f, 0);
    Quotient(e, 4096, f, 3);
  }

  /** The entry `frame | 3`: present, writable, supervisor. */
  function Link(f: nat): (e: Word)
    requires f < FRAME_LIMIT
    ensures Present(e) && Writable(e) && !User(e) && !PageSize(e) && IsLink(e)
    ensures Frame(e) == f && e < 0x10_0000_0000_0000
  {
    LinkBits(f);
    Quotient(f, 0x100_0000_0000, 0, f);
    4096 * f + 3
  }

  /** The leaf the editor writes: the physical address with its low 12 bits replaced by 3. */
  function Leaf(phys: Word): (e: Word)
    ensures Present(e) && Writable(e) && !User(e) && Frame(e) == Frame(phys)
  {
    LinkBits(phys / 4096);
    4096 * (phys / 4096) + 3
  }

  /** Entry `i` of table `t`; memory that is not there reads as zero. */
  function Entry(mem: Memory, t: nat, i: nat): Word {
    if 512 * t + i < |mem| then mem[512 * t + i] else 0
  }

  function Poke(mem: Memory, t: nat, i: nat, e: Word): Memory
    requires 512 * t + i < |mem|
  {
    mem[512 * t + i := e]
  }

  function ZeroTable(mem: Memory, t: nat): Memory
    requires 512 * t + 512 <= |mem|
  {
    mem[..512 * t] + seq(512, _ => 0) + mem[512 * t + 512..]
  }

  // ---- The hardware walk -------------------------------------------------------------------

  /** What the processor makes of a linear address; `level` is 1 for a 4-KByte page. */
  datatype Translation = Fault | Page(frame: nat, level: nat, writable: bool, user: bool)

  /** Bits 47:12 of a linear address. */
  function Vpn(va: Word): (v: nat)
    ensures v < VPN_LIMIT
  {
    va / 4096 % 0x10_0000_0000
  }

  /** The nine bits of a page number that select an entry at a level (4 = PML4 ... 1 = PT). */
  function Index(vpn: nat, level: nat): (i: nat)
    requires 1 <= level <= 4
    ensures i < 512
  {
    if level == 4 then vpn / 0x800_0000 % 512
    else if level == 3 then vpn / 0x4_0000 % 512
    else if level == 2 then vpn / 0x200 % 512
    else vpn % 512
  }

  /** The 4-KByte frame inside a 1-GByte (level 3) or 2-MByte (level 2) page. */
  function LargeFrame(e: Word, vpn: nat, level: nat): nat {
    var span := if level == 3 then 0x4_0000 else 0x200;
    Frame(e) / span * span + vpn % span
  }

  /** The physical address in a 2-MByte page: its base and the low 21 bits of the linear address. */
  lemma LargeAddress2(e: Word, va: Word)
    ensures 4096 * LargeFrame(e, Vpn(va), 2) + va % 4096 == 4096 * Frame(e) / 0x20_0000 * 0x20_0000 + va % 0x20_0000
  {
    hide Frame;
    var q, f, vpn := va / 4096, Frame(e), Vpn(va);
    Quotient(4096 * f, 0x20_0000, f / 0x200, 4096 * (f % 0x200));
    Quotient(va, 0x20_0000, q / 0x200, 4096 * (q % 0x200) + va % 4096);
    Quotient(q, 0x200, 0x800_0000 * (q / 0x10_0000_0000) + vpn / 0x200, vpn % 0x200);
  }

  /** The physical address in a 1-GByte page: its base and the low 30 bits of the linear address. */
  lemma LargeAddress3(e: Word, va: Word)
    ensures 4096 * LargeFrame(e, Vpn(va), 3) + va % 4096 ==
            4096 * Frame(e) / 0x4000_0000 * 0x4000_0000 + va % 0x4000_0000
  {
    hide Frame;
    var q, f, vpn := va / 4096, Frame(e), Vpn(va);
    Quotient(4096 * f, 0x4000_0000, f / 0x4_0000, 4096 * (f % 0x4_0000));
    Quotient(va, 0x4000_0000, q / 0x4_0000, 4096 * (q % 0x4_0000) + va % 4096);
    Quotient(q, 0x4_0000, 0x4_0000 * (q / 0x10_0000_0000) + vpn / 0x4_0000, vpn % 0x4_0000);
  }

  function WalkFrom(mem: Memory, t: nat, vpn: nat, level: nat, w: bool, u: bool): Translation
    requires 1 <= level <= 4
    decreases level, vpn
  {
    var e := Entry(mem, t, Index(vpn, level));
    if !Present(e) then
      Fault
    else if level == 1 then
      Page(Frame(e), 1, w && Writable(e), u && User(e))
    else if PageSize(e) then
      if level == 4 then Fault else Page(LargeFrame(e, vpn, level), level, w && Writable(e), u && User(e))
    else
      WalkFrom(mem, Frame(e), vpn, level - 1, w && Writable(e), u && User(e))
  }

  /** The translation of a page number from the root table down. */
  function Translate(mem: Memory, root: nat, vpn: nat): Translation {
    WalkFrom(mem, root, vpn, 4, true, true)
  }

  /** The translation of a linear address under a given CR3. */
  function Walk(mem: Memory, cr3: Word, va: Word): Translation {
    Translate(mem, Frame(cr3), Vpn(va))
  }

  // ---- The tree of tables ------------------------------------------------------------------

  /** A path is the list of entry numbers from the root down to a table: at most three. */
  predicate IsPath(p: seq<nat>) {
    |p| <= 3 && forall k :: 0 <= k < |p| ==> p[k] < 512
  }

  predicate IsLink(e: Word) { Present(e) && !PageSize(e) }

  function TableAt(mem: Memory, root: nat, p: seq<nat>): Option<nat> {
    if p == [] then Some(root) else
    match TableAt(mem, root, p[..|p| - 1])
    case None => None
    case Some(t) =>
      var e := Entry(mem, t, p[|p| - 1]);
      if IsLink(e) then Some(Frame(e)) else None
  }

  /** The first `n` entry numbers used to translate a page number. */
  function Prefix(vpn: nat, n: nat): (p: seq<nat>)
    requires n <= 3
    ensures |p| == n && IsPath(p)
  {
    if n == 0 then [] else Prefix(vpn, n - 1) + [Index(vpn, 5 - n)]
  }

  /** Following an entry one level down. */
  lemma LinkTable(mem: Memory, root: nat, q: seq<nat>, x: nat, i: nat)
    requires TableAt(mem, root, q) == Some(x)
    ensures TableAt(mem, root, q + [i]) == var e := Entry(mem, x, i); if IsLink(e) then Some(Frame(e)) else None
  {
    assert (q + [i])[..|q|] == q;
  }

  /** The same along the path of a page number. */
  lemma NextTable(mem: Memory, root: nat, vpn: nat, level: nat, x: nat)
    requires 2 <= level <= 4 && TableAt(mem, root, Prefix(vpn, 4 - level)) == Some(x)
    ensures TableAt(mem, root, Prefix(vpn, 5 - level)) ==
            var e := Entry(mem, x, Index(vpn, level)); if IsLink(e) then Some(Frame(e)) else None
  {
    assert Prefix(vpn, 5 - level)[..4 - level] == Prefix(vpn, 4 - level);
  }

  /**
   Where the tables live: the root, the size of memory in frames, and the scratch pool; and the pages
   through which the kernel reaches them.  Page number `direct + f` is the direct-map page of frame `f`,
   for the frames in `shown`; page number `scratch + k` is the kernel's own page for pool table `k`.
   */
  datatype Layout = Layout(root: nat, frames: nat, pool: nat, size: nat,
                           shown: set<nat>, direct: nat, scratch: nat)
  {
    ghost predicate Valid() {
      && root < frames <= FRAME_LIMIT
      && pool + size <= frames
      && (forall f: nat :: f in shown ==> f < frames)
      && (forall f: nat :: pool <= f < pool + size ==> f in shown)
      && direct + frames <= VPN_LIMIT && scratch + size <= VPN_LIMIT
      && (direct + frames <= scratch || scratch + size <= direct)
    }

    /** The frame that a page of one of the windows must show. */
    function Window(v: nat): Option<nat> {
      if direct <= v && v - direct in shown then Some(v - direct)
      else if scratch <= v < scratch + size then Some(pool + (v - scratch))
      else None
    }
  }

  datatype Tables = Tables(mem: Memory, used: nat)

  predicate Unused(c: Layout, s: Tables, t: nat) {
    c.pool + s.used <= t < c.pool + c.size
  }

  /** Reachable tables are in memory the direct map shows, and outside the part of the pool not handed out yet. */
  ghost predicate Contained(c: Layout, s: Tables) {
    forall p: seq<nat> | IsPath(p) && TableAt(s.mem, c.root, p).Some? ::
      var t := TableAt(s.mem, c.root, p).value;
      t < c.frames && t in c.shown && !Unused(c, s, t)
  }

  /** No table is reached by two different paths. */
  ghost predicate IsTree(c: Layout, s: Tables) {
    forall p: seq<nat>, q: seq<nat> | IsPath(p) && IsPath(q) ::
      TableAt(s.mem, c.root, p).Some? && TableAt(s.mem, c.root, p) == TableAt(s.mem, c.root, q) ==> p == q
  }

  ghost predicate WellFormed(c: Layout, s: Tables) {
    && c.Valid()
    && |s.mem| == 512 * c.frames
    && s.used <= c.size
    && Contained(c, s)
    && IsTree(c, s)
  }

  /** An entry the editor can follow: absent, or a link whose bits 63:52 are clear. */
  predicate Followable(e: Word) {
    Present(e) ==> !PageSize(e) && e < 0x10_0000_0000_0000
  }

  /** The editor can follow the entries for `vpn` from table `t` down. */
  predicate Editable(mem: Memory, t: nat, vpn: nat, level: nat)
    requires 1 <= level <= 4
    decreases level, vpn
  {
    level == 1 ||
    var e := Entry(mem, t, Index(vpn, level));
    Followable(e) && (Present(e) ==> Editable(mem, Frame(e), vpn, level - 1))
  }

  /** Every entry already on the path of `vpn`, from table `t` down, allows writes. */
  predicate PathWritable(mem: Memory, t: nat, vpn: nat, level: nat)
    requires 1 <= level <= 4
    decreases level, vpn
  {
    level == 1 ||
    var e := Entry(mem, t, Index(vpn, level));
    Present(e) ==> Writable(e) && (PageSize(e) || PathWritable(mem, Frame(e), vpn, level - 1))
  }

  /** The number of tables missing on the path of `vpn` from table `t` down. */
  function Need(mem: Memory, t: nat, vpn: nat, level: nat): (n: nat)
    requires 1 <= level <= 4
    ensures n <= level - 1
    decreases level, vpn
  {
    if level == 1 then 0 else
    var e := Entry(mem, t, Index(vpn, level));
    if Present(e) then Need(mem, Frame(e), vpn, level - 1) else level - 1
  }

  // ---- What the editor does ----------------------------------------------------------------

  /** Install a zeroed table from the pool behind an absent entry; leave a present entry alone. */
  function Descend(c: Layout, s: Tables, t: nat, i: nat): (r: Tables)
    requires c.Valid() && |s.mem| == 512 * c.frames && t < c.frames && i < 512
    requires Present(Entry(s.mem, t, i)) || s.used < c.size
    ensures |r.mem| == |s.mem|
  {
    if Present(Entry(s.mem, t, i)) then s else
    var f := c.pool + s.used;
    Tables(Poke(ZeroTable(s.mem, f), t, i, Link(f)), s.used + 1)
  }

  lemma PokeEntry(mem: Memory, t: nat, i: nat, e: Word, t': nat, i': nat)
    requires 512 * t + 512 <= |mem| && i < 512 && i' < 512
    ensures Entry(Poke(mem, t, i, e), t', i') == if t' == t && i' == i then e else Entry(mem, t', i')
  {
  }

  lemma ZeroEntry(mem: Memory, t: nat, t': nat, i': nat)
    requires 512 * t + 512 <= |mem| && i' < 512
    ensures Entry(ZeroTable(mem, t), t', i') == if t' == t then 0 else Entry(mem, t', i')
  {
    var k := 512 * t' + i';
    if t' < t {
      assert k < 512 * t;
    } else if t' > t {
      assert k >= 512 * t + 512;
    }
  }

  /** `m'` is `mem` with table `f` zeroed and entry `i` of table `t` linked to it. */
  ghost predicate Grown(mem: Memory, m': Memory, t: nat, i: nat, f: nat) {
    && f < FRAME_LIMIT && f != t
    && !IsLink(Entry(mem, t, i)) && !Present(Entry(mem, t, i))
    && forall t': nat, i': nat | i' < 512 ::
      Entry(m', t', i') == if t' == f then 0 else if t' == t && i' == i then Link(f) else Entry(mem, t', i')
  }

  /** Table `t` is reached by `p` and by no other path; table `f` is not reached at all. */
  ghost predicate OnlyVia(mem: Memory, root: nat, p: seq<nat>, t: nat, f: nat) {
    && IsPath(p)
    && TableAt(mem, root, p) == Some(t)
    && forall q: seq<nat> | IsPath(q) ::
      TableAt(mem, root, q) != Some(f) && (TableAt(mem, root, q) == Some(t) ==> q == p)
  }

  lemma ZeroIsAbsent()
    ensures !Present(0) && !IsLink(0)
  {
  }

  lemma OnlyViaAt(mem: Memory, root: nat, p: seq<nat>, t: nat, f: nat, q: seq<nat>, x: nat)
    requires OnlyVia(mem, root, p, t, f) && IsPath(q) && TableAt(mem, root, q) == Some(x)
    ensures x != f && (x == t ==> q == p)
  {
  }

  lemma Snoc(q: seq<nat>, p: seq<nat>, i: nat)
    ensures q == p + [i] <==> q != [] && q[..|q| - 1] == p && q[|q| - 1] == i
  {
  }

  lemma {:induction false} GrowTableAt(mem: Memory, m': Memory, root: nat, p: seq<nat>, t: nat, i: nat, f: nat,
                                       q: seq<nat>)
    requires Grown(mem, m', t, i, f) && OnlyVia(mem, root, p, t, f) && IsPath(q)
    ensures TableAt(m', root, q) == if q == p + [i] then Some(f) else TableAt(mem, root, q)
    decreases |q|
  {
    hide Entry, IsLink, Frame, Link;
    ZeroIsAbsent();
    if q != [] {
      var q', j := q[..|q| - 1], q[|q| - 1];
      GrowTableAt(mem, m', root, p, t, i, f, q');
      Snoc(q, p, i);
      if q' == p + [i] {
        LinkTable(mem, root, p, t, i);
      }
    }
  }

  /** An empty table faults, can be edited, and denies nothing. */
  lemma EmptyWalk(mem: Memory, t: nat, vpn: nat, level: nat, w: bool, u: bool)
    requires 1 <= level <= 4 && Entry(mem, t, Index(vpn, level)) == 0
    ensures WalkFrom(mem, t, vpn, level, w, u) == Fault
    ensures Editable(mem, t, vpn, level) && PathWritable(mem, t, vpn, level)
    ensures Need(mem, t, vpn, level) == level - 1
  {
  }

  /** Adding an empty table changes no translation. */
  lemma {:induction false} GrowWalk(mem: Memory, m': Memory, root: nat, p: seq<nat>, t: nat, i: nat, f: nat,
                                    q: seq<nat>, x: nat, vpn: nat, level: nat, w: bool, u: bool)
    requires Grown(mem, m', t, i, f) && OnlyVia(mem, root, p, t, f) && |p| <= 2
    requires 1 <= level <= 4 && IsPath(q) && |q| == 4 - level && TableAt(mem, root, q) == Some(x)
    ensures WalkFrom(m', x, vpn, level, w, u) == WalkFrom(mem, x, vpn, level, w, u)
    decreases level
  {
    hide OnlyVia, TableAt, Entry, Index, Present, PageSize, Writable, User, Frame, Link, LargeFrame;
    OnlyViaAt(mem, root, p, t, f, q, x);
    var e := Entry(mem, x, Index(vpn, level));
    if x == t && Index(vpn, level) == i {
      EmptyWalk(m', f, vpn, level - 1, w && Writable(Link(f)), u && User(Link(f)));
    } else if level > 1 && IsLink(e) {
      LinkTable(mem, root, q, x, Index(vpn, level));
      GrowWalk(mem, m', root, p, t, i, f, q + [Index(vpn, level)], Frame(e), vpn, level - 1,
               w && Writable(e), u && User(e));
    }
  }

  /** An empty table hides no path the editor could follow, and blocks none. */
  lemma {:induction false} GrowEditable(mem: Memory, m': Memory, root: nat, p: seq<nat>, t: nat, i: nat, f: nat,
                                    q: seq<nat>, x: nat, vpn: nat, level: nat)
    requires Grown(mem, m', t, i, f) && OnlyVia(mem, root, p, t, f) && |p| <= 2
    requires 1 <= level <= 4 && IsPath(q) && |q| == 4 - level && TableAt(mem, root, q) == Some(x)
    ensures Editable(m', x, vpn, level) == Editable(mem, x, vpn, level)
    decreases level
  {
    hide OnlyVia, TableAt, Entry, Index, Present, PageSize, Writable, User, Frame, Link, LargeFrame;
    OnlyViaAt(mem, root, p, t, f, q, x);
    var e := Entry(mem, x, Index(vpn, level));
    if x == t && Index(vpn, level) == i {
      EmptyWalk(m', f, vpn, level - 1, true, true);
    } else if level > 1 && IsLink(e) {
      LinkTable(mem, root, q, x, Index(vpn, level));
      GrowEditable(mem, m', root, p, t, i, f, q + [Index(vpn, level)], Frame(e), vpn, level - 1);
    }
  }

  /** An empty table does not change which paths allow writes. */
  lemma {:induction false} GrowWritable(mem: Memory, m': Memory, root: nat, p: seq<nat>, t: nat, i: nat, f: nat,
                                    q: seq<nat>, x: nat, vpn: nat, level: nat)
    requires Grown(mem, m', t, i, f) && OnlyVia(mem, root, p, t, f) && |p| <= 2
    requires 1 <= level <= 4 && IsPath(q) && |q| == 4 - level && TableAt(mem, root, q) == Some(x)
    ensures PathWritable(m', x, vpn, level) == PathWritable(mem, x, vpn, level)
    decreases level
  {
    hide OnlyVia, TableAt, Entry, Index, Present, PageSize, Writable, User, Frame, Link, LargeFrame;
    OnlyViaAt(mem, root, p, t, f, q, x);
    var e := Entry(mem, x, Index(vpn, level));
    if x == t && Index(vpn, level) == i {
      EmptyWalk(m', f, vpn, level - 1, true, true);
    } else if level > 1 && IsLink(e) {
      LinkTable(mem, root, q, x, Index(vpn, level));
      GrowWritable(mem, m', root, p, t, i, f, q + [Index(vpn, level)], Frame(e), vpn, level - 1);
    }
  }

  // ---- Descending one level ----------------------------------------------------------------

  ghost predicate CanDescend(c: Layout, s: Tables, p: seq<nat>, t: nat, i: nat) {
    && WellFormed(c, s)
    && IsPath(p) && |p| <= 2 && i < 512
    && TableAt(s.mem, c.root, p) == Some(t)
    && Followable(Entry(s.mem, t, i))
    && (Present(Entry(s.mem, t, i)) || s.used < c.size)
  }

  lemma DescendGrows(c: Layout, s: Tables, p: seq<nat>, t: nat, i: nat)
    requires CanDescend(c, s, p, t, i) && !Present(Entry(s.mem, t, i))
    ensures t < c.frames
    ensures Grown(s.mem, Descend(c, s, t, i).mem, t, i, c.pool + s.used)
    ensures OnlyVia(s.mem, c.root, p, t, c.pool + s.used)
  {
    hide Frame, PageSize, Writable, User, Link, Present;
    var f := c.pool + s.used;
    forall t': nat, i': nat | i' < 512
      ensures Entry(Descend(c, s, t, i).mem, t', i') ==
              if t' == f then 0 else if t' == t && i' == i then Link(f) else Entry(s.mem, t', i')
    {
      ZeroEntry(s.mem, f, t', i');
      PokeEntry(ZeroTable(s.mem, f), t, i, Link(f), t', i');
    }
  }

  lemma DescendTables(c: Layout, s: Tables, p: seq<nat>, t: nat, i: nat)
    requires CanDescend(c, s, p, t, i)
    ensures t < c.frames && c.Valid() && |s.mem| == 512 * c.frames
    ensures Present(Entry(s.mem, t, i)) ==> Descend(c, s, t, i) == s
    ensures !Present(Entry(s.mem, t, i)) ==> Descend(c, s, t, i).used == s.used + 1
    ensures var s' := Descend(c, s, t, i);
            && WellFormed(c, s')
            && IsLink(Entry(s'.mem, t, i)) && Followable(Entry(s'.mem, t, i))
            && TableAt(s'.mem, c.root, p + [i]) == Some(Frame(Entry(s'.mem, t, i)))
  {
    hide Entry, Present, PageSize, Frame, Link;
    assert (p + [i])[..|p|] == p;
    if !Present(Entry(s.mem, t, i)) {
      DescendGrows(c, s, p, t, i);
      var f := c.pool + s.used;
      var s' := Descend(c, s, t, i);
      forall q: seq<nat> | IsPath(q)
        ensures TableAt(s'.mem, c.root, q) == if q == p + [i] then Some(f) else TableAt(s.mem, c.root, q)
      {
        GrowTableAt(s.mem, s'.mem, c.root, p, t, i, f, q);
      }
      assert Entry(s'.mem, t, i) == Link(f);
    }
  }

  lemma DescendKeeps(c: Layout, s: Tables, p: seq<nat>, t: nat, i: nat, vpn: nat)
    requires CanDescend(c, s, p, t, i)
    ensures t < c.frames
    ensures var m' := Descend(c, s, t, i).mem;
            && Translate(m', c.root, vpn) == Translate(s.mem, c.root, vpn)
            && Editable(m', c.root, vpn, 4) == Editable(s.mem, c.root, vpn, 4)
            && PathWritable(m', c.root, vpn, 4) == PathWritable(s.mem, c.root, vpn, 4)
  {
    hide Entry, Present, PageSize, Writable, User, Frame, Link, LargeFrame;
    if !Present(Entry(s.mem, t, i)) {
      DescendGrows(c, s, p, t, i);
      var f := c.pool + s.used;
      GrowWalk(s.mem, Descend(c, s, t, i).mem, c.root, p, t, i, f, [], c.root, vpn, 4, true, true);
      GrowEditable(s.mem, Descend(c, s, t, i).mem, c.root, p, t, i, f, [], c.root, vpn, 4);
      GrowWritable(s.mem, Descend(c, s, t, i).mem, c.root, p, t, i, f, [], c.root, vpn, 4);
    }
  }

  // ---- Building the path of one page ---------------------------------------------------------

  /** Table `t` is the one used for `vpn` at this level, and the editor can go on from there. */
  ghost predicate CanBuild(c: Layout, s: Tables, t: nat, vpn: nat, level: nat) {
    && 1 <= level <= 4
    && WellFormed(c, s)
    && TableAt(s.mem, c.root, Prefix(vpn, 4 - level)) == Some(t)
    && Editable(s.mem, t, vpn, level)
    && s.used + Need(s.mem, t, vpn, level) <= c.size
  }

  lemma BuildDescends(c: Layout, s: Tables, t: nat, vpn: nat, level: nat)
    requires CanBuild(c, s, t, vpn, level) && level > 1
    ensures CanDescend(c, s, Prefix(vpn, 4 - level), t, Index(vpn, level))
  {
    hide WellFormed, Entry, Index, Present, Followable, TableAt;
  }

  lemma CanBuildPresent(c: Layout, s: Tables, t: nat, vpn: nat, level: nat)
    requires CanBuild(c, s, t, vpn, level) && level > 1 && Present(Entry(s.mem, t, Index(vpn, level)))
    ensures CanBuild(c, s, Frame(Entry(s.mem, t, Index(vpn, level))), vpn, level - 1)
  {
    hide WellFormed, TableAt, Prefix, Entry, Index, Present, PageSize, Frame;
    NextTable(s.mem, c.root, vpn, level, t);
  }

  lemma GrownNext(mem: Memory, m': Memory, t: nat, i: nat, f: nat, j: nat)
    requires Grown(mem, m', t, i, f) && i < 512 && j < 512
    ensures Frame(Entry(m', t, i)) == f && Entry(m', f, j) == 0
  {
    hide Entry, Frame, Present, IsLink, Link;
  }

  lemma CanBuildAbsent(c: Layout, s: Tables, t: nat, vpn: nat, level: nat)
    requires CanBuild(c, s, t, vpn, level) && level > 1 && !Present(Entry(s.mem, t, Index(vpn, level)))
    requires CanDescend(c, s, Prefix(vpn, 4 - level), t, Index(vpn, level))
    ensures t < c.frames && c.Valid() && |s.mem| == 512 * c.frames
    ensures var s' := Descend(c, s, t, Index(vpn, level));
            var next := Frame(Entry(s'.mem, t, Index(vpn, level)));
            CanBuild(c, s', next, vpn, level - 1) && s'.used == s.used + 1 &&
            Need(s'.mem, next, vpn, level - 1) == level - 2 && Need(s.mem, t, vpn, level) == level - 1
  {
    hide Descend, WellFormed, CanDescend, TableAt, OnlyVia, Grown, Entry, Index, Present, PageSize, Frame, Link,
         WalkFrom, PathWritable;
    var p, i, f := Prefix(vpn, 4 - level), Index(vpn, level), c.pool + s.used;
    assert Prefix(vpn, 5 - level) == p + [i];
    DescendTables(c, s, p, t, i);
    DescendGrows(c, s, p, t, i);
    GrownNext(s.mem, Descend(c, s, t, i).mem, t, i, f, Index(vpn, level - 1));
    EmptyWalk(Descend(c, s, t, i).mem, f, vpn, level - 1, true, true);
  }

  lemma CanBuildNext(c: Layout, s: Tables, t: nat, vpn: nat, level: nat)
    requires CanBuild(c, s, t, vpn, level) && level > 1
    ensures CanDescend(c, s, Prefix(vpn, 4 - level), t, Index(vpn, level))
    ensures t < c.frames && c.Valid() && |s.mem| == 512 * c.frames
    ensures var s' := Descend(c, s, t, Index(vpn, level));
            var next := Frame(Entry(s'.mem, t, Index(vpn, level)));
            && CanBuild(c, s', next, vpn, level - 1)
            && s'.used + Need(s'.mem, next, vpn, level - 1) == s.used + Need(s.mem, t, vpn, level)
  {
    hide Descend, CanDescend, CanBuild, WellFormed, Entry, Index, Present, Frame;
    BuildDescends(c, s, t, vpn, level);
    DescendTables(c, s, Prefix(vpn, 4 - level), t, Index(vpn, level));
    if Present(Entry(s.mem, t, Index(vpn, level))) {
      CanBuildPresent(c, s, t, vpn, level);
    } else {
      CanBuildAbsent(c, s, t, vpn, level);
    }
  }

  /** The tables once the whole path exists, and the table that holds the leaf entry. */
  datatype Built = Built(s: Tables, leaf: nat)

  function Build(c: Layout, s: Tables, t: nat, vpn: nat, level: nat): (r: Built)
    requires CanBuild(c, s, t, vpn, level)
    ensures CanBuild(c, r.s, r.leaf, vpn, 1)
    ensures r.s.used == s.used + Need(s.mem, t, vpn, level)
    decreases level, vpn
  {
    if level == 1 then Built(s, t) else
    CanBuildNext(c, s, t, vpn, level);
    var s' := Descend(c, s, t, Index(vpn, level));
    Build(c, s', Frame(Entry(s'.mem, t, Index(vpn, level))), vpn, level - 1)
  }

  lemma {:induction false} BuildKeeps(c: Layout, s: Tables, t: nat, vpn: nat, level: nat, v: nat)
    requires CanBuild(c, s, t, vpn, level)
    ensures var m' := Build(c, s, t, vpn, level).s.mem;
            && Translate(m', c.root, v) == Translate(s.mem, c.root, v)
            && Editable(m', c.root, v, 4) == Editable(s.mem, c.root, v, 4)
            && PathWritable(m', c.root, v, 4) == PathWritable(s.mem, c.root, v, 4)
    decreases level
  {
    hide Entry, Index, Present, PageSize, Writable, User, Frame, Link, LargeFrame;
    hide WellFormed, Editable, PathWritable, Need, Translate, TableAt;
    if level > 1 {
      CanBuildNext(c, s, t, vpn, level);
      DescendKeeps(c, s, Prefix(vpn, 4 - level), t, Index(vpn, level), v);
      var s' := Descend(c, s, t, Index(vpn, level));
      BuildKeeps(c, s', Frame(Entry(s'.mem, t, Index(vpn, level))), vpn, level - 1, v);
    }
  }

  // ---- Writing the leaf ------------------------------------------------------------------------

  lemma {:induction false} LeafTableAt(c: Layout, s: Tables, t: nat, vpn: nat, e: Word, q: seq<nat>)
    requires CanBuild(c, s, t, vpn, 1) && t < c.frames && IsPath(q)
    ensures TableAt(Poke(s.mem, t, Index(vpn, 1), e), c.root, q) == TableAt(s.mem, c.root, q)
    decreases |q|
  {
    if q != [] {
      var q', j := q[..|q| - 1], q[|q| - 1];
      LeafTableAt(c, s, t, vpn, e, q');
      match TableAt(s.mem, c.root, q')
      case None =>
      case Some(t') =>
        PokeEntry(s.mem, t, Index(vpn, 1), e, t', j);
    }
  }

  lemma LeafWellFormed(c: Layout, s: Tables, t: nat, vpn: nat, e: Word)
    requires CanBuild(c, s, t, vpn, 1)
    ensures t < c.frames && |s.mem| == 512 * c.frames
    ensures WellFormed(c, s.(mem := Poke(s.mem, t, Index(vpn, 1), e)))
    ensures CanBuild(c, s.(mem := Poke(s.mem, t, Index(vpn, 1), e)), t, vpn, 1)
  {
    forall q: seq<nat> | IsPath(q)
      ensures TableAt(Poke(s.mem, t, Index(vpn, 1), e), c.root, q) == TableAt(s.mem, c.root, q)
    {
      LeafTableAt(c, s, t, vpn, e, q);
    }
  }

  /** Page numbers with the same four indices are the same. */
  lemma IndexInjective(v: nat, v': nat)
    requires v < VPN_LIMIT && v' < VPN_LIMIT
    requires Prefix(v, 3) == Prefix(v', 3) && Index(v, 1) == Index(v', 1)
    ensures v == v'
  {
    PrefixIndex(v);
    PrefixIndex(v');
    assert Prefix(v, 3)[0] == Index(v', 4) && Prefix(v, 3)[1] == Index(v', 3) && Prefix(v, 3)[2] == Index(v', 2);
    IndexSum(v);
    IndexSum(v');
  }

  lemma PrefixIndex(v: nat)
    ensures Prefix(v, 3) == [Index(v, 4), Index(v, 3), Index(v, 2)]
  {
    assert Prefix(v, 0) == [];
    assert Prefix(v, 1) == [Index(v, 4)];
    assert Prefix(v, 2) == [Index(v, 4), Index(v, 3)];
  }

  lemma IndexSum(v: nat)
    requires v < VPN_LIMIT
    ensures v == 0x800_0000 * Index(v, 4) + 0x4_0000 * Index(v, 3) + 0x200 * Index(v, 2) + Index(v, 1)
  {
    var a := v / 512;
    var b := a / 512;
    assert v / 0x4_0000 == b;
    assert v / 0x800_0000 == b / 512;
  }

  /** `m'` is `mem` with entry `i` of table `t` replaced by a leaf, where only `p` reaches `t`. */
  ghost predicate Leafed(mem: Memory, m': Memory, root: nat, p: seq<nat>, t: nat, i: nat, e: Word) {
    && IsPath(p) && |p| == 3
    && TableAt(mem, root, p) == Some(t)
    && (forall q: seq<nat> | IsPath(q) :: TableAt(mem, root, q) == Some(t) ==> q == p)
    && (forall t': nat, i': nat | i' < 512 ::
      Entry(m', t', i') == if t' == t && i' == i then e else Entry(mem, t', i'))
  }

  lemma LeafIsLeafed(c: Layout, s: Tables, t: nat, vpn: nat, e: Word)
    requires CanBuild(c, s, t, vpn, 1)
    ensures t < c.frames
    ensures Leafed(s.mem, Poke(s.mem, t, Index(vpn, 1), e), c.root, Prefix(vpn, 3), t, Index(vpn, 1), e)
  {
    forall t': nat, i': nat | i' < 512
      ensures Entry(Poke(s.mem, t, Index(vpn, 1), e), t', i') ==
              if t' == t && i' == Index(vpn, 1) then e else Entry(s.mem, t', i')
    {
      PokeEntry(s.mem, t, Index(vpn, 1), e, t', i');
    }
  }

  /** What a leaf write does to one entry of a reachable table. */
  lemma LeafedAt(mem: Memory, m': Memory, root: nat, p: seq<nat>, t: nat, i: nat, e: Word, q: seq<nat>, x: nat, j: nat)
    requires Leafed(mem, m', root, p, t, i, e) && IsPath(q) && TableAt(mem, root, q) == Some(x) && j < 512
    ensures x == t <==> q == p
    ensures Entry(m', x, j) == if q == p && j == i then e else Entry(mem, x, j)
  {
    hide Entry;
  }

  /** Writing a leaf changes the walk of its own page number only. */
  lemma {:induction false} LeafWalkOther(mem: Memory, m': Memory, root: nat, p: seq<nat>, t: nat, i: nat, e: Word,
                                         x: nat, v: nat, level: nat, w: bool, u: bool)
    requires Leafed(mem, m', root, p, t, i, e) && |p| == 3 && 1 <= level <= 4
    requires Prefix(v, 3) != p || Index(v, 1) != i
    requires TableAt(mem, root, Prefix(v, 4 - level)) == Some(x)
    ensures WalkFrom(m', x, v, level, w, u) == WalkFrom(mem, x, v, level, w, u)
    decreases level
  {
    hide Leafed, Prefix, TableAt, Index, Entry, Present, PageSize, Writable, User, Frame, LargeFrame;
    LeafedAt(mem, m', root, p, t, i, e, Prefix(v, 4 - level), x, Index(v, level));
    var d := Entry(mem, x, Index(v, level));
    if level > 1 && IsLink(d) {
      NextTable(mem, root, v, level, x);
      LeafWalkOther(mem, m', root, p, t, i, e, Frame(d), v, level - 1, w && Writable(d), u && User(d));
    }
  }

  /** The prefixes of a path that reaches a table reach tables too. */
  lemma {:induction false} PrefixReached(mem: Memory, root: nat, vpn: nat, n: nat)
    requires n <= 3 && TableAt(mem, root, Prefix(vpn, 3)).Some?
    ensures TableAt(mem, root, Prefix(vpn, n)).Some?
    decreases 3 - n
  {
    if n < 3 {
      PrefixReached(mem, root, vpn, n + 1);
      assert Prefix(vpn, n + 1)[..n] == Prefix(vpn, n);
    }
  }

  /** The page whose leaf is written translates to that leaf; a path that denies writes still does. */
  lemma {:induction false} LeafWalkSelf(mem: Memory, m': Memory, root: nat, t: nat, vpn: nat, e: Word,
                                        level: nat, w: bool, u: bool)
    requires Leafed(mem, m', root, Prefix(vpn, 3), t, Index(vpn, 1), e) && 1 <= level <= 4
    requires Present(e) && Writable(e) && !User(e)
    requires TableAt(mem, root, Prefix(vpn, 4 - level)).Some?
    ensures var x := TableAt(mem, root, Prefix(vpn, 4 - level)).value;
            WalkFrom(m', x, vpn, level, w, u) == Page(Frame(e), 1, w && PathWritable(mem, x, vpn, level), false)
    decreases level
  {
    var q := Prefix(vpn, 4 - level);
    var x := TableAt(mem, root, q).value;
    var d := Entry(mem, x, Index(vpn, level));
    if level > 1 {
      PrefixReached(mem, root, vpn, 5 - level);
      NextTable(mem, root, vpn, level, x);
      assert x != t;
      LeafWalkSelf(mem, m', root, t, vpn, e, level - 1, w && Writable(d), u && User(d));
    }
  }

  /** A leaf is below every entry the editor follows. */
  lemma {:induction false} LeafEditable(mem: Memory, m': Memory, root: nat, p: seq<nat>, t: nat, i: nat, e: Word,
                                      v: nat, level: nat)
    requires Leafed(mem, m', root, p, t, i, e) && 1 <= level <= 4
    requires TableAt(mem, root, Prefix(v, 4 - level)).Some?
    ensures var x := TableAt(mem, root, Prefix(v, 4 - level)).value;
            Editable(m', x, v, level) == Editable(mem, x, v, level)
    decreases level
  {
    var q := Prefix(v, 4 - level);
    var x := TableAt(mem, root, q).value;
    if level > 1 {
      assert x != t;
      if IsLink(Entry(mem, x, Index(v, level))) {
        NextTable(mem, root, v, level, x);
        LeafEditable(mem, m', root, p, t, i, e, v, level - 1);
      }
    }
  }

  /** A leaf is below every entry that decides whether a path allows writes. */
  lemma {:induction false} LeafWritable(mem: Memory, m': Memory, root: nat, p: seq<nat>, t: nat, i: nat, e: Word,
                                      v: nat, level: nat)
    requires Leafed(mem, m', root, p, t, i, e) && 1 <= level <= 4
    requires TableAt(mem, root, Prefix(v, 4 - level)).Some?
    ensures var x := TableAt(mem, root, Prefix(v, 4 - level)).value;
            PathWritable(m', x, v, level) == PathWritable(mem, x, v, level)
    decreases level
  {
    var q := Prefix(v, 4 - level);
    var x := TableAt(mem, root, q).value;
    if level > 1 {
      assert x != t;
      if IsLink(Entry(mem, x, Index(v, level))) {
        NextTable(mem, root, v, level, x);
        LeafWritable(mem, m', root, p, t, i, e, v, level - 1);
      }
    }
  }

  // ---- The editor -------------------------------------------------------------------------------

  /** What `map_page` needs of its caller: a followable path and enough of the pool for the missing tables. */
  ghost predicate CanMap(c: Layout, s: Tables, va: Word) {
    && WellFormed(c, s)
    && Editable(s.mem, c.root, Vpn(va), 4)
    && s.used + Need(s.mem, c.root, Vpn(va), 4) <= c.size
  }

  function MapPaged(c: Layout, s: Tables, va: Word, phys: Word): Tables
    requires CanMap(c, s, va)
  {
    assert Prefix(Vpn(va), 0) == [];
    var b := Build(c, s, c.root, Vpn(va), 4);
    LeafWellFormed(c, b.s, b.leaf, Vpn(va), Leaf(phys));
    b.s.(mem := Poke(b.s.mem, b.leaf, Index(Vpn(va), 1), Leaf(phys)))
  }

  /** The tree stays well formed and the pool shrinks by exactly the number of missing tables. */
  lemma MapPagedWellFormed(c: Layout, s: Tables, va: Word, phys: Word)
    requires CanMap(c, s, va)
    ensures WellFormed(c, MapPaged(c, s, va, phys))
    ensures MapPaged(c, s, va, phys).used == s.used + Need(s.mem, c.root, Vpn(va), 4) <= s.used + 3
  {
    var b := Build(c, s, c.root, Vpn(va), 4);
    LeafWellFormed(c, b.s, b.leaf, Vpn(va), Leaf(phys));
  }

  /** Every other page translates as before: same frame, size and rights, or the same fault. */
  lemma MapPagedOther(c: Layout, s: Tables, va: Word, phys: Word, v: nat)
    requires CanMap(c, s, va) && v < VPN_LIMIT && v != Vpn(va)
    ensures Translate(MapPaged(c, s, va, phys).mem, c.root, v) ==
            Translate(s.mem, c.root, v)
  {
    hide WellFormed, Entry, Index, Frame, Present, Writable, User, PageSize, Leaf;
    var b := Build(c, s, c.root, Vpn(va), 4);
    BuildKeeps(c, s, c.root, Vpn(va), 4, v);
    LeafIsLeafed(c, b.s, b.leaf, Vpn(va), Leaf(phys));
    assert Prefix(v, 0) == [];
    if Prefix(v, 3) == Prefix(Vpn(va), 3) && Index(v, 1) == Index(Vpn(va), 1) {
      IndexInjective(v, Vpn(va));
    }
    LeafWalkOther(b.s.mem, MapPaged(c, s, va, phys).mem, c.root, Prefix(Vpn(va), 3), b.leaf, Index(Vpn(va), 1),
                  Leaf(phys), c.root, v, 4, true, true);
  }

  /** The page itself translates to the 4-KByte frame asked for. */
  lemma MapPagedSelf(c: Layout, s: Tables, va: Word, phys: Word)
    requires CanMap(c, s, va)
    ensures Translate(MapPaged(c, s, va, phys).mem, c.root, Vpn(va)) ==
            Page(Frame(phys), 1, PathWritable(s.mem, c.root, Vpn(va), 4), false)
  {
    hide WellFormed, Entry, Index, Frame, Present, Writable, User, PageSize, Leaf;
    var b := Build(c, s, c.root, Vpn(va), 4);
    BuildKeeps(c, s, c.root, Vpn(va), 4, Vpn(va));
    LeafIsLeafed(c, b.s, b.leaf, Vpn(va), Leaf(phys));
    assert Prefix(Vpn(va), 0) == [];
    LeafWalkSelf(b.s.mem, MapPaged(c, s, va, phys).mem, c.root, b.leaf, Vpn(va), Leaf(phys), 4, true, true);
  }

  /** What the processor makes of any address after a call. */
  lemma MapPagedWalk(c: Layout, s: Tables, va: Word, phys: Word, cr3: Word, other: Word)
    requires CanMap(c, s, va) && Frame(cr3) == c.root
    ensures Walk(MapPaged(c, s, va, phys).mem, cr3, other) ==
            if Vpn(other) == Vpn(va) then Page(Frame(phys), 1, PathWritable(s.mem, c.root, Vpn(va), 4), false)
            else Walk(s.mem, cr3, other)
  {
    hide CanMap, MapPaged, Translate, PathWritable;
    if Vpn(other) == Vpn(va) {
      MapPagedSelf(c, s, va, phys);
    } else {
      MapPagedOther(c, s, va, phys, Vpn(other));
    }
  }

  /** A call never makes another page impossible to edit, nor the other way round. */
  lemma MapPagedEditable(c: Layout, s: Tables, va: Word, phys: Word, v: nat)
    requires CanMap(c, s, va)
    ensures Editable(MapPaged(c, s, va, phys).mem, c.root, v, 4) == Editable(s.mem, c.root, v, 4)
    ensures PathWritable(MapPaged(c, s, va, phys).mem, c.root, v, 4) == PathWritable(s.mem, c.root, v, 4)
  {
    hide WellFormed, Entry, Index, Frame, Present, Writable, User, PageSize, Leaf;
    var b := Build(c, s, c.root, Vpn(va), 4);
    var m' := MapPaged(c, s, va, phys).mem;
    BuildKeeps(c, s, c.root, Vpn(va), 4, v);
    LeafIsLeafed(c, b.s, b.leaf, Vpn(va), Leaf(phys));
    assert Prefix(v, 0) == [];
    LeafEditable(b.s.mem, m', c.root, Prefix(Vpn(va), 3), b.leaf, Index(Vpn(va), 1), Leaf(phys), v, 4);
    LeafWritable(b.s.mem, m', c.root, Prefix(Vpn(va), 3), b.leaf, Index(Vpn(va), 1), Leaf(phys), v, 4);
  }

  /** With no table missing, building the path changes nothing and arrives at the table already there. */
  lemma {:induction false} BuildComplete(c: Layout, s: Tables, t: nat, vpn: nat, level: nat)
    requires CanBuild(c, s, t, vpn, level)
    requires TableAt(s.mem, c.root, Prefix(vpn, 3)).Some?
    ensures Build(c, s, t, vpn, level) == Built(s, TableAt(s.mem, c.root, Prefix(vpn, 3)).value)
    ensures Need(s.mem, t, vpn, level) == 0
    decreases level
  {
    hide WellFormed, Entry, Index, Editable;
    if level > 1 {
      PrefixReached(s.mem, c.root, vpn, 5 - level);
      NextTable(s.mem, c.root, vpn, level, t);
      CanBuildNext(c, s, t, vpn, level);
      BuildComplete(c, s, Frame(Entry(s.mem, t, Index(vpn, level))), vpn, level - 1);
    }
  }

  lemma {:induction false} NeedNothing(mem: Memory, root: nat, t: nat, vpn: nat, level: nat)
    requires 1 <= level <= 4 && TableAt(mem, root, Prefix(vpn, 3)).Some?
    requires TableAt(mem, root, Prefix(vpn, 4 - level)) == Some(t)
    ensures Need(mem, t, vpn, level) == 0
    decreases level
  {
    if level > 1 {
      PrefixReached(mem, root, vpn, 5 - level);
      NextTable(mem, root, vpn, level, t);
      NeedNothing(mem, root, Frame(Entry(mem, t, Index(vpn, level))), vpn, level - 1);
    }
  }

  /** After a call the whole path exists, ends at the table just written, and the same call could follow. */
  lemma MapPagedPath(c: Layout, s: Tables, va: Word, phys: Word)
    requires CanMap(c, s, va)
    ensures var s' := MapPaged(c, s, va, phys);
            && CanMap(c, s', va)
            && TableAt(s'.mem, c.root, Prefix(Vpn(va), 3)) == Some(Build(c, s, c.root, Vpn(va), 4).leaf)
  {
    hide WellFormed, Entry, Index, Frame, Present, Writable, User, PageSize, Leaf;
    var b := Build(c, s, c.root, Vpn(va), 4);
    var s' := MapPaged(c, s, va, phys);
    LeafWellFormed(c, b.s, b.leaf, Vpn(va), Leaf(phys));
    MapPagedEditable(c, s, va, phys, Vpn(va));
    assert Prefix(Vpn(va), 0) == [];
    NeedNothing(s'.mem, c.root, c.root, Vpn(va), 4);
  }

  lemma PokeTwice(mem: Memory, t: nat, i: nat, e: Word)
    requires 512 * t + i < |mem|
    ensures Poke(Poke(mem, t, i, e), t, i, e) == Poke(mem, t, i, e)
  {
  }

  /** Repeating a call needs no table and leaves memory as it is. */
  lemma MapPagedAgain(c: Layout, s: Tables, va: Word, phys: Word)
    requires CanMap(c, s, va)
    ensures CanMap(c, MapPaged(c, s, va, phys), va)
    ensures MapPaged(c, MapPaged(c, s, va, phys), va, phys) == MapPaged(c, s, va, phys)
  {
    hide WellFormed, Entry, Index, Frame, Present, Writable, User, PageSize, Leaf;
    MapPagedPath(c, s, va, phys);
    assert Prefix(Vpn(va), 0) == [];
    var s', b := MapPaged(c, s, va, phys), Build(c, s, c.root, Vpn(va), 4);
    BuildComplete(c, s', c.root, Vpn(va), 4);
    LeafWellFormed(c, b.s, b.leaf, Vpn(va), Leaf(phys));
    PokeTwice(b.s.mem, b.leaf, Index(Vpn(va), 1), Leaf(phys));
  }

  // ---- The windows -----------------------------------------------------------------------------------

  /** The page walks, for writing, to a frame. */
  ghost predicate WalksTo(mem: Memory, root: nat, v: nat, f: nat) {
    var t := Translate(mem, root, v);
    t.Page? && t.writable && t.frame == f
  }

  /** Every page of the two windows walks to the frame the editor expects behind it. */
  ghost predicate WindowsHold(c: Layout, mem: Memory) {
    forall v: nat :: v < VPN_LIMIT && c.Window(v).Some? ==> WalksTo(mem, c.root, v, c.Window(v).value)
  }

  /** The call does not give a window page another frame. */
  predicate Spares(c: Layout, va: Word, phys: Word) {
    c.Window(Vpn(va)).None? || c.Window(Vpn(va)) == Some(Frame(phys))
  }

  /** A page that can be written through is reached by entries that all allow writes. */
  lemma {:induction false} WritablePath(mem: Memory, t: nat, vpn: nat, level: nat, w: bool, u: bool)
    requires 1 <= level <= 4
    requires WalkFrom(mem, t, vpn, level, w, u).Page? && WalkFrom(mem, t, vpn, level, w, u).writable
    ensures w && PathWritable(mem, t, vpn, level)
    decreases level
  {
    hide Entry, Index, Present, PageSize, Writable, User, Frame, LargeFrame;
    var e := Entry(mem, t, Index(vpn, level));
    if level > 1 && !PageSize(e) {
      WritablePath(mem, Frame(e), vpn, level - 1, w && Writable(e), u && User(e));
    }
  }

  /**
   A call keeps the windows exactly when it spares them: a page outside the windows, or a window page
   mapped to the very frame it shows.
   */
  lemma MapPagedWindows(c: Layout, s: Tables, va: Word, phys: Word)
    requires CanMap(c, s, va) && WindowsHold(c, s.mem)
    ensures WindowsHold(c, MapPaged(c, s, va, phys).mem) <==> Spares(c, va, phys)
  {
    hide CanMap, MapPaged, Frame, Vpn, Translate, PathWritable, Layout.Window;
    var m' := MapPaged(c, s, va, phys).mem;
    var vpn := Vpn(va);
    MapPagedSelf(c, s, va, phys);
    if c.Window(vpn).Some? {
      assert WalksTo(s.mem, c.root, vpn, c.Window(vpn).value);
      WritableTranslation(s.mem, c.root, vpn);
    }
    forall v: nat | v < VPN_LIMIT && v != vpn
      ensures Translate(m', c.root, v) == Translate(s.mem, c.root, v)
    {
      MapPagedOther(c, s, va, phys, v);
    }
    assert WindowsHold(c, m') ==> c.Window(vpn).Some? ==> WalksTo(m', c.root, vpn, c.Window(vpn).value);
  }

  lemma WritableTranslation(mem: Memory, root: nat, vpn: nat)
    requires Translate(mem, root, vpn).Page? && Translate(mem, root, vpn).writable
    ensures PathWritable(mem, root, vpn, 4)
  {
    hide WalkFrom, PathWritable;
    WritablePath(mem, root, vpn, 4, true, true);
  }

  /** Writing inside a table that is not reached changes no walk. */
  lemma {:induction false} UnreachedWalk(mem: Memory, m': Memory, root: nat, f: nat,
                                         q: seq<nat>, x: nat, vpn: nat, level: nat, w: bool, u: bool)
    requires forall t: nat, i: nat | i < 512 && t != f :: Entry(m', t, i) == Entry(mem, t, i)
    requires forall p: seq<nat> | IsPath(p) :: TableAt(mem, root, p) != Some(f)
    requires 1 <= level <= 4 && IsPath(q) && |q| == 4 - level && TableAt(mem, root, q) == Some(x)
    ensures WalkFrom(m', x, vpn, level, w, u) == WalkFrom(mem, x, vpn, level, w, u)
    decreases level
  {
    hide Entry, Index, Present, PageSize, Writable, User, Frame, LargeFrame;
    var e := Entry(mem, x, Index(vpn, level));
    assert x != f;
    if level > 1 && IsLink(e) {
      LinkTable(mem, root, q, x, Index(vpn, level));
      UnreachedWalk(mem, m', root, f, q + [Index(vpn, level)], Frame(e), vpn, level - 1,
                    w && Writable(e), u && User(e));
    }
  }

  /** The two memories differ in table `f` at most. */
  ghost predicate SameOutside(mem: Memory, m': Memory, f: nat)
    requires |m'| == |mem|
  {
    forall k :: 0 <= k < |mem| && !(512 * f <= k < 512 * f + 512) ==> m'[k] == mem[k]
  }

  /** The windows hold while a table of the unused pool is being written. */
  lemma UnreachedWindows(c: Layout, s: Tables, m': Memory)
    requires WellFormed(c, s) && s.used < c.size && |m'| == |s.mem| && WindowsHold(c, s.mem)
    requires SameOutside(s.mem, m', c.pool + s.used)
    ensures WindowsHold(c, m')
  {
    hide WellFormed, Entry, TableAt, Translate, Layout.Window;
    forall v: nat | v < VPN_LIMIT
      ensures Translate(m', c.root, v) == Translate(s.mem, c.root, v)
    {
      UnreachedTranslation(c, s, m', v);
    }
  }

  lemma UnreachedTranslation(c: Layout, s: Tables, m': Memory, v: nat)
    requires WellFormed(c, s) && s.used < c.size && |m'| == |s.mem|
    requires SameOutside(s.mem, m', c.pool + s.used)
    ensures Translate(m', c.root, v) == Translate(s.mem, c.root, v)
  {
    hide WalkFrom, Entry;
    var f := c.pool + s.used;
    forall t: nat, i: nat | i < 512 && t != f
      ensures Entry(m', t, i) == Entry(s.mem, t, i)
    {
      SameEntry(s.mem, m', f, t, i);
    }
    assert TableAt(s.mem, c.root, []) == Some(c.root);
    UnreachedWalk(s.mem, m', c.root, f, [], c.root, v, 4, true, true);
  }

  lemma SameEntry(mem: Memory, m': Memory, f: nat, t: nat, i: nat)
    requires |m'| == |mem| && SameOutside(mem, m', f) && t != f && i < 512
    ensures Entry(m', t, i) == Entry(mem, t, i)
  {
    assert t < f ==> 512 * t + i < 512 * f;
    assert t > f ==> 512 * t + i >= 512 * f + 512;
  }

  // ---- Runs of calls ------------------------------------------------------------------------------

  datatype Call = Call(va: Word, phys: Word)

  /** A call the editor can carry out through its windows, and after which it can go on. */
  ghost predicate CanStep(c: Layout, s: Tables, k: Call) {
    CanMap(c, s, k.va) && WindowsHold(c, s.mem) && Spares(c, k.va, k.phys)
  }

  ghost predicate CanRun(c: Layout, s: Tables, calls: seq<Call>)
    decreases |calls|
  {
    calls == [] ||
    (CanStep(c, s, calls[0]) && CanRun(c, MapPaged(c, s, calls[0].va, calls[0].phys), calls[1..]))
  }

  function Run(c: Layout, s: Tables, calls: seq<Call>): Tables
    requires CanRun(c, s, calls)
    decreases |calls|
  {
    if calls == [] then s else Run(c, MapPaged(c, s, calls[0].va, calls[0].phys), calls[1..])
  }

  /** The frame given to page `v` by the last call that names it. */
  function LastFrame(calls: seq<Call>, v: nat): Option<nat> {
    if calls == [] then None
    else if Vpn(calls[|calls| - 1].va) == v then Some(Frame(calls[|calls| - 1].phys))
    else LastFrame(calls[..|calls| - 1], v)
  }

  lemma {:induction false} LastFrameCons(calls: seq<Call>, v: nat)
    requires calls != []
    ensures LastFrame(calls, v) ==
            if LastFrame(calls[1..], v).Some? then LastFrame(calls[1..], v)
            else if Vpn(calls[0].va) == v then Some(Frame(calls[0].phys))
            else None
  {
    var front := calls[..|calls| - 1];
    if |calls| > 1 {
      assert calls[1..][..|calls| - 2] == front[1..];
      LastFrameCons(front, v);
    } else {
      assert front == [];
    }
  }

  /** After any run, a page no call names translates as it did at first, and any other to its last frame. */
  lemma {:induction false} RunWalk(c: Layout, s: Tables, calls: seq<Call>, cr3: Word, va: Word)
    requires CanRun(c, s, calls) && Frame(cr3) == c.root
    ensures Walk(Run(c, s, calls).mem, cr3, va) ==
            match LastFrame(calls, Vpn(va))
            case None => Walk(s.mem, cr3, va)
            case Some(f) => Page(f, 1, PathWritable(s.mem, c.root, Vpn(va), 4), false)
    decreases |calls|
  {
    if calls != [] {
      var k, rest := calls[0], calls[1..];
      LastFrameCons(calls, Vpn(va));
      RunWalk(c, MapPaged(c, s, k.va, k.phys), rest, cr3, va);
      MapPagedEditable(c, s, k.va, k.phys, Vpn(va));
      if Vpn(k.va) == Vpn(va) {
        MapPagedSelf(c, s, k.va, k.phys);
      } else {
        MapPagedOther(c, s, k.va, k.phys, Vpn(va));
      }
    }
  }

  /** The simple view of a tree of tables: a map from page numbers to 4-KByte frames. */
  ghost function Frames(c: Layout, mem: Memory): imap<nat, nat> {
    imap v: nat | v < VPN_LIMIT && Translate(mem, c.root, v).Page? ::
      Translate(mem, c.root, v).frame
  }

  function Updates(m: imap<nat, nat>, calls: seq<Call>): imap<nat, nat> {
    if calls == [] then m else Updates(m[Vpn(calls[0].va) := Frame(calls[0].phys)], calls[1..])
  }

  lemma FramesUpdate(c: Layout, m: Memory, m': Memory, vpn: nat, f: nat, w: bool)
    requires vpn < VPN_LIMIT && Translate(m', c.root, vpn) == Page(f, 1, w, false)
    requires forall v: nat | v < VPN_LIMIT && v != vpn ::
               Translate(m', c.root, v) == Translate(m, c.root, v)
    ensures Frames(c, m') == Frames(c, m)[vpn := f]
  {
  }

  lemma MapPagedFrames(c: Layout, s: Tables, va: Word, phys: Word)
    requires CanMap(c, s, va)
    ensures Frames(c, MapPaged(c, s, va, phys).mem) == Frames(c, s.mem)[Vpn(va) := Frame(phys)]
  {
    var m' := MapPaged(c, s, va, phys).mem;
    forall v: nat | v < VPN_LIMIT && v != Vpn(va)
      ensures Translate(m', c.root, v) == Translate(s.mem, c.root, v)
    {
      MapPagedOther(c, s, va, phys, v);
    }
    MapPagedSelf(c, s, va, phys);
    FramesUpdate(c, s.mem, m', Vpn(va), Frame(phys), PathWritable(s.mem, c.root, Vpn(va), 4));
  }

  /** The editor refines the simple map: a run of calls is the same run of map updates. */
  lemma {:induction false} RunFrames(c: Layout, s: Tables, calls: seq<Call>)
    requires CanRun(c, s, calls)
    ensures Frames(c, Run(c, s, calls).mem) == Updates(Frames(c, s.mem), calls)
    decreases |calls|
  {
    if calls != [] {
      MapPagedFrames(c, s, calls[0].va, calls[0].phys);
      RunFrames(c, MapPaged(c, s, calls[0].va, calls[0].phys), calls[1..]);
    }
  }

  /** After a run the tables are still well formed and the windows still hold. */
  lemma {:induction false} RunKeeps(c: Layout, s: Tables, calls: seq<Call>)
    requires CanRun(c, s, calls) && WellFormed(c, s) && WindowsHold(c, s.mem)
    ensures WellFormed(c, Run(c, s, calls)) && WindowsHold(c, Run(c, s, calls).mem)
    decreases |calls|
  {
    hide WellFormed, WindowsHold, CanMap, MapPaged;
    if calls != [] {
      MapPagedWellFormed(c, s, calls[0].va, calls[0].phys);
      MapPagedWindows(c, s, calls[0].va, calls[0].phys);
      RunKeeps(c, MapPaged(c, s, calls[0].va, calls[0].phys), calls[1..]);
    }
  }

  /**
   Three free tables per call, paths followable at the start, and calls that spare the windows are
   enough for a whole run.
   */
  lemma {:induction false} RunEnough(c: Layout, s: Tables, calls: seq<Call>)
    requires WellFormed(c, s) && WindowsHold(c, s.mem) && s.used + 3 * |calls| <= c.size
    requires forall k :: 0 <= k < |calls| ==> Editable(s.mem, c.root, Vpn(calls[k].va), 4)
    requires forall k :: 0 <= k < |calls| ==> Spares(c, calls[k].va, calls[k].phys)
    ensures CanRun(c, s, calls)
    decreases |calls|
  {
    hide WellFormed, WindowsHold, Editable, MapPaged, Spares, Vpn, Need;
    if calls != [] {
      var va, phys := calls[0].va, calls[0].phys;
      MapPagedWellFormed(c, s, va, phys);
      MapPagedWindows(c, s, va, phys);
      var s', rest := MapPaged(c, s, va, phys), calls[1..];
      forall k | 0 <= k < |rest|
        ensures Editable(s'.mem, c.root, Vpn(rest[k].va), 4) && Spares(c, rest[k].va, rest[k].phys)
      {
        assert rest[k] == calls[k + 1];
        MapPagedEditable(c, s, va, phys, Vpn(rest[k].va));
      }
      RunEnough(c, s', rest);
    }
  }
}
