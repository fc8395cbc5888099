/** Loading MPU regions from a table: four at a time through the alias registers, or one at a time. */
module MpuLoad {
  import opened Arithmetic
  import opened FixedPoint

  /** Word offsets in `MPU_Type`: RBAR, RASR and three more pairs that follow them. */
  const RBAR := 3
  const RASR := 4
  const RASR_A3 := 10

  const RALIASES := 4

  datatype Entry = Entry(rbar: u32, rasr: u32)

  /** The selected region, and the base and attributes every region holds (Armv7-M ARM, section B3.5). */
  datatype Mpu = Mpu(rnr: nat, bases: map<nat, int>, attrs: map<nat, int>)

  predicate ValidBit(rbar: u32) {
    rbar / 16 % 2 == 1
  }

  function RegionField(rbar: u32): nat {
    rbar % 16
  }

  function BaseField(rbar: u32): int {
    rbar / 32
  }

  /** The fields of a word built as the RBAR macro builds it: ADDR, VALID, REGION. */
  lemma RbarFields(base: nat, valid: nat, region: nat, rbar: u32)
    requires valid <= 1 && region <= 15 && rbar == 32 * base + 16 * valid + region
    ensures BaseField(rbar) == base && (ValidBit(rbar) <==> valid == 1) && RegionField(rbar) == region
  {
    UniqueDivision(rbar, 32, base, 16 * valid + region);
    UniqueDivision(rbar, 16, 2 * base + valid, region);
    UniqueDivision(2 * base + valid, 2, base, valid);
  }

  /** A write to RBAR with VALID set also selects the region; an alias acts as the register it repeats. */
  function WriteBase(m: Mpu, v: u32): Mpu {
    var rnr := if ValidBit(v) then RegionField(v) else m.rnr;
    Mpu(rnr, m.bases[rnr := BaseField(v)], m.attrs)
  }

  function WriteAttributes(m: Mpu, v: u32): Mpu {
    m.(attrs := m.attrs[m.rnr := v])
  }

  function Write(m: Mpu, offset: nat, v: u32): Mpu
    requires RBAR <= offset <= RASR_A3
  {
    if (offset - RBAR) % 2 == 0 then WriteBase(m, v) else WriteAttributes(m, v)
  }

  /** `ARM_MPU_SetRegion` */
  function SetRegion(m: Mpu, e: Entry): Mpu {
    Write(Write(m, RBAR, e.rbar), RASR, e.rasr)
  }

  /** The simple form: one entry after the other. */
  function SetAll(m: Mpu, table: seq<Entry>): Mpu
    decreases |table|
  {
    if table == [] then m else SetRegion(SetAll(m, table[..|table| - 1]), table[|table| - 1])
  }

  lemma {:induction false} SetAllJoin(m: Mpu, x: seq<Entry>, y: seq<Entry>)
    ensures SetAll(m, x + y) == SetAll(SetAll(m, x), y)
    decreases |y|
  {
    hide SetRegion;
    if y == [] {
      assert x + y == x;
    } else {
      SetAllJoin(m, x, y[..|y| - 1]);
      assert (x + y)[..|x + y| - 1] == x + y[..|y| - 1];
    }
  }

  // ---------------------------------------------------------------- the bulk copy

  /** The table as the words `orderedCpy` sees. */
  function Words(table: seq<Entry>): (ws: seq<u32>)
    ensures |ws| == 2 * |table|
    decreases |table|
  {
    if table == [] then []
    else Words(table[..|table| - 1]) + [table[|table| - 1].rbar, table[|table| - 1].rasr]
  }

  lemma {:induction false} WordAt(table: seq<Entry>, k: nat)
    requires k < 2 * |table|
    ensures Words(table)[k] == if k % 2 == 0 then table[k / 2].rbar else table[k / 2].rasr
    decreases |table|
  {
    if k < 2 * (|table| - 1) {
      WordAt(table[..|table| - 1], k);
    }
  }

  function WriteWords(m: Mpu, dst: nat, ws: seq<u32>): Mpu
    requires RBAR <= dst && dst + |ws| <= RASR_A3 + 1
    decreases |ws|
  {
    if ws == [] then m
    else Write(WriteWords(m, dst, ws[..|ws| - 1]), dst + |ws| - 1, ws[|ws| - 1])
  }

  lemma OneMoreWord(m: Mpu, dst: nat, ws: seq<u32>, i: nat)
    requires RBAR <= dst && dst + |ws| <= RASR_A3 + 1 && i < |ws|
    ensures WriteWords(m, dst, ws[..i + 1]) == Write(WriteWords(m, dst, ws[..i]), dst + i, ws[i])
  {
    hide Write;
    assert ws[..i + 1][..i] == ws[..i];
  }

  /** Up to four entries copied over the alias pairs do what setting them one by one does. */
  lemma {:induction false} ChunkIsSetAll(m: Mpu, chunk: seq<Entry>)
    requires |chunk| <= RALIASES
    ensures WriteWords(m, RBAR, Words(chunk)) == SetAll(m, chunk)
    decreases |chunk|
  {
    if chunk != [] {
      var front, e := chunk[..|chunk| - 1], chunk[|chunk| - 1];
      ChunkIsSetAll(m, front);
      var ws := Words(chunk);
      var one := ws[..|ws| - 1];
      assert one[..|one| - 1] == Words(front);
      assert WriteWords(m, RBAR, ws) == Write(WriteWords(m, RBAR, one), RBAR + |ws| - 1, e.rasr);
      assert WriteWords(m, RBAR, one) == Write(WriteWords(m, RBAR, Words(front)), RBAR + |one| - 1, e.rbar);
    }
  }

  // ---------------------------------------------------------------- what a load leaves

  /** The region entry k lands in: the one named by the last VALID entry up to it, or the one selected before. */
  function Target(rnr: nat, table: seq<Entry>, k: nat): nat
    requires k < |table|
  {
    if ValidBit(table[k].rbar) then RegionField(table[k].rbar) else if k == 0 then rnr else Target(rnr, table, k - 1)
  }

  lemma {:induction false} TargetPrefix(rnr: nat, table: seq<Entry>, n: nat, k: nat)
    requires k < n <= |table|
    ensures Target(rnr, table[..n], k) == Target(rnr, table, k)
    decreases k
  {
    if k > 0 {
      TargetPrefix(rnr, table, n, k - 1);
    }
  }

  lemma {:induction false} SelectedAfter(m: Mpu, table: seq<Entry>)
    ensures SetAll(m, table).rnr == if table == [] then m.rnr else Target(m.rnr, table, |table| - 1)
    decreases |table|
  {
    if table != [] {
      var n := |table| - 1;
      SelectedAfter(m, table[..n]);
      if n > 0 {
        TargetPrefix(m.rnr, table, n, n - 1);
      }
    }
  }

  ghost predicate LastFor(rnr: nat, table: seq<Entry>, region: nat, k: nat) {
    && k < |table| && Target(rnr, table, k) == region
    && forall j: nat :: k < j < |table| ==> Target(rnr, table, j) != region
  }

  ghost predicate Holds(m: Mpu, region: nat, e: Entry) {
    && region in m.bases && m.bases[region] == BaseField(e.rbar)
    && region in m.attrs && m.attrs[region] == e.rasr
  }

  ghost predicate SameRegion(m: Mpu, n: Mpu, region: nat) {
    && (region in n.bases <==> region in m.bases) && (region in m.bases ==> n.bases[region] == m.bases[region])
    && (region in n.attrs <==> region in m.attrs) && (region in m.attrs ==> n.attrs[region] == m.attrs[region])
  }

  /** One entry fills the region it selects and leaves the others. */
  lemma OneEntry(m: Mpu, e: Entry, region: nat)
    ensures var selected := if ValidBit(e.rbar) then RegionField(e.rbar) else m.rnr;
            && Holds(SetRegion(m, e), selected, e)
            && (region != selected ==> SameRegion(m, SetRegion(m, e), region))
  {}

  /** After a load every region holds the last entry that lands in it, and a region none lands in is untouched. */
  lemma {:induction false} LastEntryWins(m: Mpu, table: seq<Entry>, region: nat, k: nat)
    ensures LastFor(m.rnr, table, region, k) ==> Holds(SetAll(m, table), region, table[k])
    ensures (forall j: nat :: j < |table| ==> Target(m.rnr, table, j) != region)
            ==> SameRegion(m, SetAll(m, table), region)
    decreases |table|
  {
    hide SetRegion, ValidBit, RegionField, BaseField;
    if table != [] {
      var n := |table| - 1;
      var front := table[..n];
      SelectedAfter(m, front);
      if n > 0 { TargetPrefix(m.rnr, table, n, n - 1); }
      assert Target(m.rnr, table, n) == (if ValidBit(table[n].rbar) then RegionField(table[n].rbar)
                                         else SetAll(m, front).rnr);
      OneEntry(SetAll(m, front), table[n], region);
      if Target(m.rnr, table, n) != region {
        LastEntryWins(m, front, region, k);
        forall j: nat | j < n ensures Target(m.rnr, front, j) == Target(m.rnr, table, j) {
          TargetPrefix(m.rnr, table, n, j);
        }
      }
    }
  }

  /** Why the entries need VALID: without it a whole table collapses into the region selected beforehand. */
  lemma {:induction false} WithoutValid(m: Mpu, table: seq<Entry>, k: nat)
    requires k < |table| && forall j: nat :: j <= k ==> !ValidBit(table[j].rbar)
    ensures Target(m.rnr, table, k) == m.rnr
  {
    if k > 0 {
      WithoutValid(m, table, k - 1);
    }
  }

  // ---------------------------------------------------------------- the routines

  class MpuUnit {
    var state: Mpu
    /** The word offset of every register write so far. */
    ghost var offsets: seq<nat>

    constructor (state: Mpu)
      ensures this.state == state && offsets == []
    {
      this.state, offsets := state, [];
    }

    method WriteRegister(offset: nat, v: u32)
      requires RBAR <= offset <= RASR_A3
      modifies this
      ensures state == Write(old(state), offset, v) && offsets == old(offsets) + [offset]
    {
      state := Write(state, offset, v);
      offsets := offsets + [offset];
    }

    static function Ascending(from: nat, n: nat): (s: seq<nat>)
      ensures |s| == n && forall k :: 0 <= k < n ==> s[k] == from + k
    {
      if n == 0 then [] else Ascending(from, n - 1) + [from + n - 1]
    }

    /** `orderedCpy(&MPU->RBAR + (dst - 3), (word*)&table[first], len)` */
    method OrderedCpy(dst: nat, table: seq<Entry>, first: nat, len: nat)
      requires RBAR <= dst && dst + len <= RASR_A3 + 1
      requires 2 * first + len <= 2 * |table|
      modifies this
      ensures state == WriteWords(old(state), dst, Words(table[first..])[..len])
      ensures offsets == old(offsets) + Ascending(dst, len)
    {
      hide WriteWords, Words, Write;
      ghost var all, ws, base, m := table[first..], Words(table[first..])[..len], offsets, state;
      var i := 0;
      assert m == WriteWords(m, dst, ws[..0]) by { NoWords(m, dst); assert ws[..0] == []; }
      while i < len
        invariant 0 <= i <= len
        invariant state == WriteWords(m, dst, ws[..i])
        invariant offsets == base + Ascending(dst, i)
      {
        OneMoreWord(m, dst, ws, i);
        WordAt(all, i);
        var e := table[first + i / 2];
        assert all[i / 2] == e;
        WriteRegister(dst + i, if i % 2 == 0 then e.rbar else e.rasr);
        i := i + 1;
      }
      assert ws[..len] == ws;
    }

    static lemma NoWords(m: Mpu, dst: nat)
      requires RBAR <= dst <= RASR_A3 + 1
      ensures WriteWords(m, dst, []) == m
    {}

    static lemma WholeWords(table: seq<Entry>, first: nat, n: nat)
      requires first + n <= |table|
      ensures Words(table[first..])[..2 * n] == Words(table[first..first + n])
    {
      forall k: nat | k < 2 * n
        ensures Words(table[first..])[k] == Words(table[first..first + n])[k]
      {
        WordAt(table[first..], k);
        WordAt(table[first..first + n], k);
      }
    }

    /** `ARM_MPU_Load`: leaves exactly what setting the entries one by one leaves, and writes only the four pairs. */
    method Load(table: seq<Entry>)
      modifies this
      ensures state == SetAll(old(state), table)
      ensures |offsets| == |old(offsets)| + 2 * |table|
      ensures forall k :: |old(offsets)| <= k < |offsets| ==> RBAR <= offsets[k] <= RASR_A3
    {
      hide SetAll, WriteWords, Words;
      var first, cnt := 0, |table|;
      ghost var base := |offsets|;
      NothingSet(state);
      assert table[..0] == [];
      while cnt > RALIASES
        invariant 0 <= cnt && 0 <= first && first + cnt == |table|
        invariant state == SetAll(old(state), table[..first])
        invariant |offsets| == base + 2 * first
        invariant forall k :: base <= k < |offsets| ==> RBAR <= offsets[k] <= RASR_A3
      {
        CopyChunk(table, first, RALIASES, old(state), base);
        first := first + RALIASES;
        cnt := cnt - RALIASES;
      }
      CopyChunk(table, first, cnt, old(state), base);
      assert table[..|table|] == table;
    }

    static lemma NothingSet(m: Mpu)
      ensures SetAll(m, []) == m
    {}

    method CopyChunk(table: seq<Entry>, first: nat, n: nat, ghost start: Mpu, ghost base: nat)
      requires n <= RALIASES && first + n <= |table|
      requires state == SetAll(start, table[..first]) && |offsets| == base + 2 * first
      requires forall k :: base <= k < |offsets| ==> RBAR <= offsets[k] <= RASR_A3
      modifies this
      ensures state == SetAll(start, table[..first + n]) && |offsets| == base + 2 * (first + n)
      ensures forall k :: base <= k < |offsets| ==> RBAR <= offsets[k] <= RASR_A3
    {
      hide SetAll, WriteWords, Words;
      ghost var before := offsets;
      OrderedCpy(RBAR, table, first, 2 * n);
      WholeWords(table, first, n);
      ChunkIsSetAll(SetAll(start, table[..first]), table[first..first + n]);
      SetAllJoin(start, table[..first], table[first..first + n]);
      assert table[..first] + table[first..first + n] == table[..first + n];
      assert offsets == before + Ascending(RBAR, 2 * n);
    }
  }
}
