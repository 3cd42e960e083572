/**
 Which PHY objects `find_enabled_phys` of `lib/vsyncalter.cpp` creates, and who owns a DPLL: the `enabled`
 flags of the tables in `lib/combo.cpp` and `lib/dkl.cpp`. The registers do not change meanwhile.
 */
module Ownership {
  import opened Wrappers
  import opened Bits

  datatype Kind = DKL | COMBO | C10 | C20 | Unsupported

  /** An entry of a platform's table of display interfaces. */
  datatype Ddi = Ddi(kind: Kind, deClk: nat, dpclk: nat, clockBit: nat, muxLow: nat)

  datatype Platform = Platform(ddis: seq<Ddi>, firstDkl: nat)

  datatype Registers = Registers(transDdiFuncCtl: nat -> nat, dpclk: nat -> nat, dklPllDiv0: nat -> nat)

  /** A PHY object that initialised, with the DPLL it owns if it is of a kind that owns one. */
  datatype Listed =
    | OnMN(pipe: nat)
    | OnCombo(pipe: nat, dpll: nat)
    | OnDkl(pipe: nat, dpll: nat)
    | OnC10(pipe: nat)
    | OnC20(pipe: nat)

  const PIPES: nat := 4
  const COMBO_TABLE: nat := 4
  const DKL_TABLE: nat := 6

  /** The fields of TRANS_DDI_FUNC_CTL. */
  const ENABLE_BIT: nat := 31
  const DDI_HIGH: nat := 30
  const DDI_LOW: nat := 27
  const MODE_HIGH: nat := 26
  const MODE_LOW: nat := 24

  const DP_SST: nat := 2
  const DP_MST: nat := 3

  /** Bits `l` to `h` of a register. */
  function Field(val: nat, h: nat, l: nat): nat
    requires l <= h
  {
    Low(Shr(val, l), h + 1 - l)
  }

  predicate BitSet(val: nat, k: nat) {
    Shr(val, k) % 2 == 1
  }

  /** The macros the source reads registers with. */
  lemma FieldIsMacro(val: nat, h: nat, l: nat)
    requires l <= h < LONG_BITS
    ensures GetBitsVal(val, h, l) == Field(val, h, l)
  {
    GetBitsIsField(val, h, l);
  }

  lemma {:induction false} BitSetIsMacro(val: nat, k: nat)
    ensures And(val, Pow2(k)) != 0 <==> BitSet(val, k)
    decreases k
  {
    if k == 0 {
      assert And(val / 2, 0) == 0;
    } else {
      BitSetIsMacro(val / 2, k - 1);
      AndDouble(val, Pow2(k - 1));
    }
  }

  /** The interfaces a platform lists as DKL have an entry in the DKL table, and multiplexer fields fit a register. */
  predicate WellFormed(p: Platform) {
    forall j :: 0 <= j < |p.ddis| ==> FitsTables(p, p.ddis[j])
  }

  predicate FitsTables(p: Platform, d: Ddi) {
    && (d.kind.DKL? && d.deClk >= p.firstDkl ==> d.deClk - p.firstDkl < DKL_TABLE)
    && (d.kind.COMBO? ==> d.muxLow + 1 < LONG_BITS)
  }

  // ----- what a pipe asks for

  /**
   What a pipe comes to before ownership is looked at: nothing, an object that does not initialise, or one
   that would.
   */
  datatype Claim = Nothing | Unusable | Wants(phy: Listed)

  function FirstDdi(ddis: seq<Ddi>, deClk: nat, from: nat): (j: nat)
    requires from <= |ddis|
    ensures from <= j <= |ddis| && (j < |ddis| ==> ddis[j].deClk == deClk)
    ensures forall i :: from <= i < j ==> ddis[i].deClk != deClk
    decreases |ddis| - from
  {
    if from == |ddis| || ddis[from].deClk == deClk then from else FirstDdi(ddis, deClk, from + 1)
  }

  /** What the constructor of the class for `d` makes of it. */
  function ClaimOn(p: Platform, r: Registers, d: Ddi, pipe: nat): Claim {
    match d.kind
    case COMBO =>
      if BitSet(r.dpclk(d.dpclk), d.clockBit) then Unusable
      else Wants(OnCombo(pipe, Field(r.dpclk(d.dpclk), d.muxLow + 1, d.muxLow)))
    case DKL =>
      if d.deClk < p.firstDkl || r.dklPllDiv0(d.deClk - p.firstDkl) == 0xFFFF_FFFF then Unusable
      else Wants(OnDkl(pipe, d.deClk - p.firstDkl))
    case C10 => Wants(OnC10(pipe))
    case C20 => Wants(OnC20(pipe))
    case Unsupported => Unusable
  }

  function ClaimOf(p: Platform, r: Registers, mN: bool, pipe: nat): Claim {
    var val := r.transDdiFuncCtl(pipe);
    if !BitSet(val, ENABLE_BIT) then Nothing
    else
      var mode := Field(val, MODE_HIGH, MODE_LOW);
      var j := FirstDdi(p.ddis, Field(val, DDI_HIGH, DDI_LOW), 0);
      if j == |p.ddis| then Nothing
      else if mN && (mode == DP_SST || mode == DP_MST) then Wants(OnMN(pipe))
      else ClaimOn(p, r, p.ddis[j], pipe)
  }

  /** The objects the first `n` pipes ask for. */
  function Wanted(p: Platform, r: Registers, mN: bool, n: nat): seq<Listed> {
    if n == 0 then []
    else
      var claim := ClaimOf(p, r, mN, n - 1);
      Wanted(p, r, mN, n - 1) + if claim.Wants? then [claim.phy] else []
  }

  predicate AllUsable(p: Platform, r: Registers, mN: bool, n: nat) {
    forall pipe :: 0 <= pipe < n ==> !ClaimOf(p, r, mN, pipe).Unusable?
  }

  /** Two objects on the same DPLL. */
  predicate Clash(a: Listed, b: Listed) {
    || (a.OnCombo? && b.OnCombo? && a.dpll == b.dpll)
    || (a.OnDkl? && b.OnDkl? && a.dpll == b.dpll)
  }

  predicate Disjoint(phys: seq<Listed>) {
    forall j, k :: 0 <= j < k < |phys| ==> !Clash(phys[j], phys[k])
  }

  lemma {:induction false} WantedPrefix(p: Platform, r: Registers, mN: bool, m: nat, n: nat)
    requires m <= n
    ensures Wanted(p, r, mN, m) <= Wanted(p, r, mN, n)
    decreases n
  {
    if m < n {
      WantedPrefix(p, r, mN, m, n - 1);
    }
  }

  lemma DisjointPrefix(p: Platform, r: Registers, mN: bool, m: nat, n: nat)
    requires m <= n && Disjoint(Wanted(p, r, mN, n))
    ensures Disjoint(Wanted(p, r, mN, m))
  {
    WantedPrefix(p, r, mN, m, n);
    var some, all := Wanted(p, r, mN, m), Wanted(p, r, mN, n);
    forall j, k | 0 <= j < k < |some| ensures !Clash(some[j], some[k]) {
      assert some[j] == all[j] && some[k] == all[k];
    }
  }

  lemma FailureIsFinal(p: Platform, r: Registers, mN: bool, i: nat, n: nat)
    requires i < n && (ClaimOf(p, r, mN, i).Unusable? || !Disjoint(Wanted(p, r, mN, i + 1)))
    ensures !AllUsable(p, r, mN, n) || !Disjoint(Wanted(p, r, mN, n))
  {
    if Disjoint(Wanted(p, r, mN, n)) {
      DisjointPrefix(p, r, mN, i + 1, n);
    }
  }

  lemma {:induction false} WantedHas(p: Platform, r: Registers, mN: bool, pipe: nat, n: nat)
    requires pipe < n && ClaimOf(p, r, mN, pipe).Wants?
    ensures ClaimOf(p, r, mN, pipe).phy in Wanted(p, r, mN, n)
    decreases n
  {
    var phys := Wanted(p, r, mN, n);
    if pipe < n - 1 {
      WantedHas(p, r, mN, pipe, n - 1);
    } else {
      assert phys[|phys| - 1] == ClaimOf(p, r, mN, pipe).phy;
    }
  }

  /** The interface a pipe that is on drives without M and N values. */
  predicate Drives(p: Platform, r: Registers, mN: bool, pipe: nat, d: Ddi) {
    var val := r.transDdiFuncCtl(pipe);
    var j := FirstDdi(p.ddis, Field(val, DDI_HIGH, DDI_LOW), 0);
    var mode := Field(val, MODE_HIGH, MODE_LOW);
    BitSet(val, ENABLE_BIT) && j < |p.ddis| && p.ddis[j] == d && !(mN && (mode == DP_SST || mode == DP_MST))
  }

  /**
   Two Combo interfaces that a platform's table gives the same multiplexer field can not both be driven,
   whatever the registers hold.
   */
  lemma SharedMultiplexerFails(p: Platform, r: Registers, mN: bool, n: nat, a: nat, b: nat, da: Ddi, db: Ddi)
    requires a < b < n && Drives(p, r, mN, a, da) && Drives(p, r, mN, b, db)
    requires da.kind.COMBO? && db.kind.COMBO? && da.dpclk == db.dpclk && da.muxLow == db.muxLow
    ensures !AllUsable(p, r, mN, n) || !Disjoint(Wanted(p, r, mN, n))
  {
    var ca, cb := ClaimOf(p, r, mN, a), ClaimOf(p, r, mN, b);
    assert ca == ClaimOn(p, r, da, a) && cb == ClaimOn(p, r, db, b);
    if ca.Wants? && cb.Wants? {
      WantedHas(p, r, mN, a, n);
      WantedHas(p, r, mN, b, n);
      var phys := Wanted(p, r, mN, n);
      var j :| 0 <= j < |phys| && phys[j] == ca.phy;
      var k :| 0 <= k < |phys| && phys[k] == cb.phy;
      assert Clash(phys[j], phys[k]) && Clash(phys[k], phys[j]) && j != k;
    }
  }

  // ----- on the words of the registers

  /** The first entry of the table for an interface. */
  predicate Entry(p: Platform, j: nat, deClk: nat) {
    j < |p.ddis| && p.ddis[j].deClk == deClk && forall i :: 0 <= i < j ==> p.ddis[i].deClk != deClk
  }

  lemma FieldsRead(p: Platform, r: Registers, pipe: nat)
    ensures var val := r.transDdiFuncCtl(pipe);
      && (BitSet(val, ENABLE_BIT) <==> And(val, Pow2(31)) != 0)
      && Field(val, DDI_HIGH, DDI_LOW) == GetBitsVal(val, 30, 27)
      && Field(val, MODE_HIGH, MODE_LOW) == GetBitsVal(val, 26, 24)
  {
    var val := r.transDdiFuncCtl(pipe);
    BitSetIsMacro(val, 31);
    FieldIsMacro(val, 30, 27);
    FieldIsMacro(val, 26, 24);
  }

  /** A pipe that is off, or drives what the platform does not list, is passed over. */
  lemma NothingIff(p: Platform, r: Registers, mN: bool, pipe: nat)
    ensures ClaimOf(p, r, mN, pipe).Nothing? <==>
      || And(r.transDdiFuncCtl(pipe), Pow2(31)) == 0
      || forall j :: 0 <= j < |p.ddis| ==> p.ddis[j].deClk != GetBitsVal(r.transDdiFuncCtl(pipe), 30, 27)
  {
    FieldsRead(p, r, pipe);
    var j := FirstDdi(p.ddis, GetBitsVal(r.transDdiFuncCtl(pipe), 30, 27), 0);
    if j < |p.ddis| {
      assert p.ddis[j].deClk == GetBitsVal(r.transDdiFuncCtl(pipe), 30, 27);
    }
  }

  /** What a pipe that is on and drives entry `j` comes to, whatever the entry is. */
  lemma ClaimOfEntry(p: Platform, r: Registers, mN: bool, pipe: nat, j: nat)
    requires And(r.transDdiFuncCtl(pipe), Pow2(31)) != 0
    requires Entry(p, j, GetBitsVal(r.transDdiFuncCtl(pipe), 30, 27))
    ensures var mode := GetBitsVal(r.transDdiFuncCtl(pipe), 26, 24);
      ClaimOf(p, r, mN, pipe)
      == if mN && (mode == 2 || mode == 3) then Wants(OnMN(pipe)) else ClaimOn(p, r, p.ddis[j], pipe)
  {
    FieldsRead(p, r, pipe);
    var first := FirstDdi(p.ddis, GetBitsVal(r.transDdiFuncCtl(pipe), 30, 27), 0);
    assert first == j;
  }

  lemma AllOnes()
    ensures Pow2(32) == 0x1_0000_0000
  {
    PowOfBytes(4, 32);
    assert Bytes(4) == 0x1_0000_0000;
  }

  /**
   What each kind of object needs: a Combo object its clock bit clear, for the DPLL of the multiplexer field; a
   DKL object an interface from the first DKL one on and a register that is not all ones.
   */
  lemma KindsClaim(p: Platform, r: Registers, d: Ddi, pipe: nat)
    requires FitsTables(p, d)
    ensures d.kind.COMBO? ==>
      var dpclk := r.dpclk(d.dpclk);
      && d.muxLow + 1 < LONG_BITS
      && ClaimOn(p, r, d, pipe)
         == if And(dpclk, Pow2(d.clockBit)) == 0 then Wants(OnCombo(pipe, GetBitsVal(dpclk, d.muxLow + 1, d.muxLow)))
            else Unusable
    ensures d.kind.DKL? && d.deClk < p.firstDkl ==> ClaimOn(p, r, d, pipe) == Unusable
    ensures d.kind.DKL? && d.deClk >= p.firstDkl ==>
      ClaimOn(p, r, d, pipe)
      == if r.dklPllDiv0(d.deClk - p.firstDkl) == Pow2(32) - 1 then Unusable
         else Wants(OnDkl(pipe, d.deClk - p.firstDkl))
    ensures d.kind.C10? ==> ClaimOn(p, r, d, pipe) == Wants(OnC10(pipe))
    ensures d.kind.C20? ==> ClaimOn(p, r, d, pipe) == Wants(OnC20(pipe))
    ensures d.kind.Unsupported? ==> ClaimOn(p, r, d, pipe) == Unusable
  {
    AllOnes();
    if d.kind.COMBO? {
      BitSetIsMacro(r.dpclk(d.dpclk), d.clockBit);
      FieldIsMacro(r.dpclk(d.dpclk), d.muxLow + 1, d.muxLow);
    }
  }

  lemma {:induction false} WantedFrom(p: Platform, r: Registers, mN: bool, n: nat, k: nat)
    requires k < |Wanted(p, r, mN, n)|
    ensures var phy := Wanted(p, r, mN, n)[k];
      phy.pipe < n && ClaimOf(p, r, mN, phy.pipe) == Wants(phy)
    decreases n
  {
    if k < |Wanted(p, r, mN, n - 1)| {
      WantedFrom(p, r, mN, n - 1, k);
    }
  }

  /**
   Every listed object belongs to a pipe that is on and drives a listed interface of its kind, and has what
   that kind needs: a Combo object a clock that is on and the DPLL its multiplexer field names, a DKL object
   a register that can be read.
   */
  lemma ListedObject(p: Platform, r: Registers, mN: bool, n: nat, k: nat) returns (j: nat)
    requires WellFormed(p) && k < |Wanted(p, r, mN, n)|
    ensures var phy := Wanted(p, r, mN, n)[k];
      var val := r.transDdiFuncCtl(phy.pipe);
      && phy.pipe < n && And(val, Pow2(31)) != 0 && Entry(p, j, GetBitsVal(val, 30, 27))
      && (phy.OnMN? <==> mN && 2 <= GetBitsVal(val, 26, 24) <= 3)
      && (phy.OnCombo? ==>
            && p.ddis[j].kind.COMBO? && p.ddis[j].muxLow + 1 < LONG_BITS
            && And(r.dpclk(p.ddis[j].dpclk), Pow2(p.ddis[j].clockBit)) == 0
            && phy.dpll == GetBitsVal(r.dpclk(p.ddis[j].dpclk), p.ddis[j].muxLow + 1, p.ddis[j].muxLow))
      && (phy.OnDkl? ==>
            && p.ddis[j].kind.DKL? && p.ddis[j].deClk == p.firstDkl + phy.dpll
            && r.dklPllDiv0(phy.dpll) != Pow2(32) - 1)
      && (phy.OnC10? ==> p.ddis[j].kind.C10?) && (phy.OnC20? ==> p.ddis[j].kind.C20?)
  {
    j := ListedEntry(p, r, mN, n, k);
    if !Wanted(p, r, mN, n)[k].OnMN? {
      ObjectNeeds(p, r, p.ddis[j], Wanted(p, r, mN, n)[k]);
    }
  }

  lemma ObjectNeeds(p: Platform, r: Registers, d: Ddi, phy: Listed)
    requires FitsTables(p, d) && ClaimOn(p, r, d, phy.pipe) == Wants(phy)
    ensures !phy.OnMN?
    ensures phy.OnCombo? ==>
      && d.kind.COMBO? && d.muxLow + 1 < LONG_BITS && And(r.dpclk(d.dpclk), Pow2(d.clockBit)) == 0
      && phy.dpll == GetBitsVal(r.dpclk(d.dpclk), d.muxLow + 1, d.muxLow)
    ensures phy.OnDkl? ==> d.kind.DKL? && d.deClk == p.firstDkl + phy.dpll && r.dklPllDiv0(phy.dpll) != Pow2(32) - 1
    ensures (phy.OnC10? ==> d.kind.C10?) && (phy.OnC20? ==> d.kind.C20?)
  {
    KindsClaim(p, r, d, phy.pipe);
  }

  lemma ListedEntry(p: Platform, r: Registers, mN: bool, n: nat, k: nat) returns (j: nat)
    requires k < |Wanted(p, r, mN, n)|
    ensures var phy := Wanted(p, r, mN, n)[k];
      var val := r.transDdiFuncCtl(phy.pipe);
      && phy.pipe < n && And(val, Pow2(31)) != 0 && Entry(p, j, GetBitsVal(val, 30, 27))
      && (if mN && 2 <= GetBitsVal(val, 26, 24) <= 3 then phy.OnMN?
          else ClaimOn(p, r, p.ddis[j], phy.pipe) == Wants(phy) && !phy.OnMN?)
  {
    var pipe := Wanted(p, r, mN, n)[k].pipe;
    WantedFrom(p, r, mN, n, k);
    NothingIff(p, r, mN, pipe);
    j := FirstDdi(p.ddis, GetBitsVal(r.transDdiFuncCtl(pipe), 30, 27), 0);
    assert Entry(p, j, GetBitsVal(r.transDdiFuncCtl(pipe), 30, 27));
    ClaimOfEntry(p, r, mN, pipe, j);
  }

  /** The other way round: a pipe that drives an interface whose object cannot be used makes initialisation fail. */
  lemma UnusableFails(p: Platform, r: Registers, mN: bool, pipe: nat, j: nat)
    requires WellFormed(p) && pipe < 4 && And(r.transDdiFuncCtl(pipe), Pow2(31)) != 0
    requires Entry(p, j, GetBitsVal(r.transDdiFuncCtl(pipe), 30, 27))
    requires !mN || GetBitsVal(r.transDdiFuncCtl(pipe), 26, 24) < 2 || GetBitsVal(r.transDdiFuncCtl(pipe), 26, 24) > 3
    requires var d := p.ddis[j];
      || (d.kind.COMBO? && And(r.dpclk(d.dpclk), Pow2(d.clockBit)) != 0)
      || (d.kind.DKL? && (d.deClk < p.firstDkl || r.dklPllDiv0(d.deClk - p.firstDkl) == Pow2(32) - 1))
      || d.kind.Unsupported?
    ensures !AllUsable(p, r, mN, 4)
  {
    ClaimOfEntry(p, r, mN, pipe, j);
    KindsClaim(p, r, p.ddis[j], pipe);
  }

  // ----- Tiger Lake

  const DPCLKA_CFGCR0: nat := 0x164280

  /** The display interfaces of Tiger Lake: DDI B and DDI C have the same clock bit and multiplexer field. */
  const TIGER_LAKE: Platform := Platform([
      Ddi(COMBO, 1, DPCLKA_CFGCR0, 10, 0),
      Ddi(COMBO, 2, DPCLKA_CFGCR0, 11, 2),
      Ddi(COMBO, 3, DPCLKA_CFGCR0, 11, 2),
      Ddi(DKL, 4, 0, 11, 2),
      Ddi(DKL, 5, 0, 11, 2),
      Ddi(DKL, 6, 0, 11, 2),
      Ddi(DKL, 7, 0, 11, 2),
      Ddi(DKL, 8, 0, 11, 2),
      Ddi(DKL, 9, 0, 11, 2)
    ], 4)

  const DDI_B: nat := 2
  const DDI_C: nat := 3

  /** The pipe is on and its register selects this interface. */
  predicate Selects(r: Registers, pipe: nat, deClk: nat) {
    BitSet(r.transDdiFuncCtl(pipe), ENABLE_BIT) && Field(r.transDdiFuncCtl(pipe), DDI_HIGH, DDI_LOW) == deClk
  }

  lemma TigerLakeDrives(r: Registers, pipe: nat, deClk: nat)
    requires (deClk == DDI_B || deClk == DDI_C) && Selects(r, pipe, deClk)
    ensures Drives(TIGER_LAKE, r, false, pipe, TIGER_LAKE.ddis[deClk - 1])
  {
    var j := FirstDdi(TIGER_LAKE.ddis, deClk, 0);
    assert TIGER_LAKE.ddis[deClk - 1].deClk == deClk;
    assert j <= deClk - 1;
    assert TIGER_LAKE.ddis[0].deClk == 1 && TIGER_LAKE.ddis[1].deClk == 2;
  }

  /**
   Whatever the registers hold otherwise: a Tiger Lake with one pipe on DDI B and another on DDI C does not
   initialise.
   */
  lemma TigerLakeBAndCFail(r: Registers, a: nat, b: nat)
    requires a < PIPES && b < PIPES && Selects(r, a, DDI_B) && Selects(r, b, DDI_C)
    ensures WellFormed(TIGER_LAKE)
    ensures !AllUsable(TIGER_LAKE, r, false, PIPES) || !Disjoint(Wanted(TIGER_LAKE, r, false, PIPES))
  {
    TigerLakeDrives(r, a, DDI_B);
    TigerLakeDrives(r, b, DDI_C);
    if a < b {
      SharedMultiplexerFails(TIGER_LAKE, r, false, PIPES, a, b, TIGER_LAKE.ddis[1], TIGER_LAKE.ddis[2]);
    } else {
      SharedMultiplexerFails(TIGER_LAKE, r, false, PIPES, b, a, TIGER_LAKE.ddis[2], TIGER_LAKE.ddis[1]);
    }
  }

  /** The register of a pipe that is on and selects `deClk`: bit 31, and bits 30 to 27. */
  function PipeOn(deClk: nat): nat {
    Shl(16 + deClk, DDI_LOW)
  }

  lemma PipeOnFields(deClk: nat)
    requires deClk == DDI_B || deClk == DDI_C
    ensures BitSet(PipeOn(deClk), ENABLE_BIT) && Field(PipeOn(deClk), DDI_HIGH, DDI_LOW) == deClk
  {
    ShlInverse(16 + deClk, DDI_LOW);
    ShrShr(PipeOn(deClk), DDI_LOW, ENABLE_BIT - DDI_LOW);
    LowestBits(16 + deClk);
  }

  lemma LowestBits(v: nat)
    requires v == 18 || v == 19
    ensures Shr(v, 4) == 1 && Low(v, 4) == v - 16
  {
    assert Shr(v, 4) == Shr(v / 2, 3) == Shr(v / 4, 2);
    assert Low(v, 4) == v % 2 + 2 * Low(v / 2, 3) == v % 2 + 2 * (v / 2 % 2 + 2 * Low(v / 4, 2));
  }

  function BAndC(pipe: nat): nat {
    if pipe == 0 then PipeOn(DDI_B) else if pipe == 1 then PipeOn(DDI_C) else 0
  }

  function Zero(address: nat): nat {
    0
  }

  /** Pipe A on DDI B and pipe B on DDI C, with both clocks on. */
  const B_AND_C: Registers := Registers(BAndC, Zero, Zero)

  lemma TigerLakeExample()
    ensures Selects(B_AND_C, 0, DDI_B) && Selects(B_AND_C, 1, DDI_C)
    ensures !AllUsable(TIGER_LAKE, B_AND_C, false, PIPES) || !Disjoint(Wanted(TIGER_LAKE, B_AND_C, false, PIPES))
  {
    PipeOnFields(DDI_B);
    PipeOnFields(DDI_C);
    TigerLakeBAndCFail(B_AND_C, 0, 1);
  }

  lemma {:induction false} OneWanted(p: Platform, r: Registers, mN: bool, pipe: nat, n: nat)
    requires forall q :: 0 <= q < n && q != pipe ==> ClaimOf(p, r, mN, q).Nothing?
    requires ClaimOf(p, r, mN, pipe).Wants?
    ensures Wanted(p, r, mN, n) == if pipe < n then [ClaimOf(p, r, mN, pipe).phy] else []
  {
    if n > 0 {
      OneWanted(p, r, mN, pipe, n - 1);
    }
  }

  lemma TigerLakeEntry(deClk: nat)
    requires 1 <= deClk <= 9
    ensures Entry(TIGER_LAKE, deClk - 1, deClk) && WellFormed(TIGER_LAKE)
    ensures var d := TIGER_LAKE.ddis[deClk - 1];
      if deClk == 1 then d.kind.COMBO? && d.dpclk == 0x164280 && d.clockBit == 10 && d.muxLow == 0
      else if deClk <= 3 then d.kind.COMBO? && d.dpclk == 0x164280 && d.clockBit == 11 && d.muxLow == 2
      else d.kind.DKL? && d.deClk - TIGER_LAKE.firstDkl == deClk - 4
  {
  }

  /**
   A Tiger Lake with one pipe on, driving a listed interface whose clock is on or whose register can be read,
   initialises with exactly the object for it.
   */
  lemma TigerLakeSingle(r: Registers, pipe: nat, deClk: nat, phy: Listed)
    requires pipe < 4 && forall q :: 0 <= q < 4 && q != pipe ==> And(r.transDdiFuncCtl(q), Pow2(31)) == 0
    requires And(r.transDdiFuncCtl(pipe), Pow2(31)) != 0
    requires 1 <= deClk <= 9 && GetBitsVal(r.transDdiFuncCtl(pipe), 30, 27) == deClk
    requires var dpclk := r.dpclk(0x164280);
      if deClk == 1 then And(dpclk, Pow2(10)) == 0 && phy == OnCombo(pipe, GetBitsVal(dpclk, 1, 0))
      else if deClk <= 3 then And(dpclk, Pow2(11)) == 0 && phy == OnCombo(pipe, GetBitsVal(dpclk, 3, 2))
      else r.dklPllDiv0(deClk - 4) != Pow2(32) - 1 && phy == OnDkl(pipe, deClk - 4)
    ensures AllUsable(TIGER_LAKE, r, false, 4) && Wanted(TIGER_LAKE, r, false, 4) == [phy] && Disjoint([phy])
  {
    TigerLakeClaim(r, pipe, deClk, phy);
    forall q | 0 <= q < 4 && q != pipe ensures ClaimOf(TIGER_LAKE, r, false, q).Nothing? {
      NothingIff(TIGER_LAKE, r, false, q);
    }
    OneWanted(TIGER_LAKE, r, false, pipe, 4);
  }

  lemma TigerLakeClaim(r: Registers, pipe: nat, deClk: nat, phy: Listed)
    requires And(r.transDdiFuncCtl(pipe), Pow2(31)) != 0
    requires 1 <= deClk <= 9 && GetBitsVal(r.transDdiFuncCtl(pipe), 30, 27) == deClk
    requires var dpclk := r.dpclk(0x164280);
      if deClk == 1 then And(dpclk, Pow2(10)) == 0 && phy == OnCombo(pipe, GetBitsVal(dpclk, 1, 0))
      else if deClk <= 3 then And(dpclk, Pow2(11)) == 0 && phy == OnCombo(pipe, GetBitsVal(dpclk, 3, 2))
      else r.dklPllDiv0(deClk - 4) != Pow2(32) - 1 && phy == OnDkl(pipe, deClk - 4)
    ensures ClaimOf(TIGER_LAKE, r, false, pipe) == Wants(phy)
  {
    TigerLakeEntry(deClk);
    ClaimOfEntry(TIGER_LAKE, r, false, pipe, deClk - 1);
    KindsClaim(TIGER_LAKE, r, TIGER_LAKE.ddis[deClk - 1], pipe);
  }

  // ----- the tables

  ghost predicate ComboOwned(phys: seq<Listed>, dpll: nat) {
    exists k :: 0 <= k < |phys| && phys[k].OnCombo? && phys[k].dpll == dpll
  }

  ghost predicate DklOwned(phys: seq<Listed>, dpll: nat) {
    exists k :: 0 <= k < |phys| && phys[k].OnDkl? && phys[k].dpll == dpll
  }

  lemma ComboOwnedAppend(phys: seq<Listed>, phy: Listed, dpll: nat)
    ensures ComboOwned(phys + [phy], dpll) <==> ComboOwned(phys, dpll) || (phy.OnCombo? && phy.dpll == dpll)
    ensures DklOwned(phys + [phy], dpll) <==> DklOwned(phys, dpll) || (phy.OnDkl? && phy.dpll == dpll)
  {
    var all := phys + [phy];
    if ComboOwned(phys, dpll) {
      var k :| 0 <= k < |phys| && phys[k].OnCombo? && phys[k].dpll == dpll;
      assert all[k] == phys[k];
    }
    if DklOwned(phys, dpll) {
      var k :| 0 <= k < |phys| && phys[k].OnDkl? && phys[k].dpll == dpll;
      assert all[k] == phys[k];
    }
    assert all[|phys|] == phy;
  }

  lemma DisjointAppend(phys: seq<Listed>, phy: Listed)
    requires Disjoint(phys)
    ensures Disjoint(phys + [phy]) <==>
      !(phy.OnCombo? && ComboOwned(phys, phy.dpll)) && !(phy.OnDkl? && DklOwned(phys, phy.dpll))
  {
    var all := phys + [phy];
    if phy.OnCombo? && ComboOwned(phys, phy.dpll) {
      var k :| 0 <= k < |phys| && phys[k].OnCombo? && phys[k].dpll == phy.dpll;
      assert Clash(all[k], all[|phys|]);
    } else if phy.OnDkl? && DklOwned(phys, phy.dpll) {
      var k :| 0 <= k < |phys| && phys[k].OnDkl? && phys[k].dpll == phy.dpll;
      assert Clash(all[k], all[|phys|]);
    } else {
      forall j, k | 0 <= j < k < |all| ensures !Clash(all[j], all[k]) {
        assert j < |phys| && all[j] == phys[j];
      }
    }
  }

  /** A flag is set exactly when a listed object owns the DPLL. */
  ghost predicate Owned(combo: seq<bool>, dkl: seq<bool>, phys: seq<Listed>) {
    && (forall d :: 0 <= d < |combo| ==> (combo[d] <==> ComboOwned(phys, d)))
    && (forall d :: 0 <= d < |dkl| ==> (dkl[d] <==> DklOwned(phys, d)))
  }

  /** No flag is set without an owner in the list, so deleting the listed objects clears them all. */
  ghost predicate Covered(combo: seq<bool>, dkl: seq<bool>, phys: seq<Listed>) {
    && (forall d :: 0 <= d < |combo| ==> combo[d] ==> ComboOwned(phys, d))
    && (forall d :: 0 <= d < |dkl| ==> dkl[d] ==> DklOwned(phys, d))
  }

  predicate InTables(phy: Listed, combo: seq<bool>, dkl: seq<bool>) {
    (phy.OnCombo? ==> phy.dpll < |combo|) && (phy.OnDkl? ==> phy.dpll < |dkl|)
  }

  predicate Taken(phy: Listed, combo: seq<bool>, dkl: seq<bool>)
    requires InTables(phy, combo, dkl)
  {
    (phy.OnCombo? && combo[phy.dpll]) || (phy.OnDkl? && dkl[phy.dpll])
  }

  function MarkCombo(combo: seq<bool>, phy: Listed, owned: bool): seq<bool>
    requires phy.OnCombo? ==> phy.dpll < |combo|
  {
    if phy.OnCombo? then combo[phy.dpll := owned] else combo
  }

  function MarkDkl(dkl: seq<bool>, phy: Listed, owned: bool): seq<bool>
    requires phy.OnDkl? ==> phy.dpll < |dkl|
  {
    if phy.OnDkl? then dkl[phy.dpll := owned] else dkl
  }

  /**
   The next object clashes with a listed one exactly when its flag is set; otherwise setting it keeps the
   tables right.
   */
  lemma OwnedNext(combo: seq<bool>, dkl: seq<bool>, phys: seq<Listed>, phy: Listed)
    requires Owned(combo, dkl, phys) && Disjoint(phys) && InTables(phy, combo, dkl)
    ensures Disjoint(phys + [phy]) <==> !Taken(phy, combo, dkl)
    ensures !Taken(phy, combo, dkl) ==> Owned(MarkCombo(combo, phy, true), MarkDkl(dkl, phy, true), phys + [phy])
  {
    DisjointAppend(phys, phy);
    forall d: nat ensures
      && (ComboOwned(phys + [phy], d) <==> ComboOwned(phys, d) || (phy.OnCombo? && phy.dpll == d))
      && (DklOwned(phys + [phy], d) <==> DklOwned(phys, d) || (phy.OnDkl? && phy.dpll == d))
    {
      ComboOwnedAppend(phys, phy, d);
    }
  }

  /** Deleting the first listed object leaves every other owner in place. */
  lemma CoveredRest(combo: seq<bool>, dkl: seq<bool>, phys: seq<Listed>)
    requires phys != [] && Covered(combo, dkl, phys) && InTables(phys[0], combo, dkl)
    ensures Covered(MarkCombo(combo, phys[0], false), MarkDkl(dkl, phys[0], false), phys[1..])
  {
    forall d: nat | ComboOwned(phys, d) && !(phys[0].OnCombo? && phys[0].dpll == d) ensures ComboOwned(phys[1..], d) {
      var k :| 0 <= k < |phys| && phys[k].OnCombo? && phys[k].dpll == d;
      assert phys[1..][k - 1] == phys[k];
    }
    forall d: nat | DklOwned(phys, d) && !(phys[0].OnDkl? && phys[0].dpll == d) ensures DklOwned(phys[1..], d) {
      var k :| 0 <= k < |phys| && phys[k].OnDkl? && phys[k].dpll == d;
      assert phys[1..][k - 1] == phys[k];
    }
  }

  predicate HasEntry(phy: Listed) {
    (phy.OnCombo? ==> phy.dpll < COMBO_TABLE) && (phy.OnDkl? ==> phy.dpll < DKL_TABLE)
  }

  lemma MuxRange(dpclk: nat, muxLow: nat)
    requires muxLow + 1 < LONG_BITS
    ensures GetBitsVal(dpclk, muxLow + 1, muxLow) == Field(dpclk, muxLow + 1, muxLow) < 4
  {
    FieldIsMacro(dpclk, muxLow + 1, muxLow);
    LowShr(Shr(dpclk, muxLow), 2);
  }

  lemma ClaimInTables(p: Platform, r: Registers, d: Ddi, pipe: nat)
    requires FitsTables(p, d)
    ensures var claim := ClaimOn(p, r, d, pipe);
      claim.Wants? ==> HasEntry(claim.phy)
  {
    if d.kind.COMBO? {
      var val := r.dpclk(d.dpclk);
      LowShr(Shr(val, d.muxLow), 2);
    }
  }

  lemma NextPipe(p: Platform, r: Registers, mN: bool, i: nat, combo: seq<bool>, dkl: seq<bool>)
    requires Disjoint(Wanted(p, r, mN, i)) && Owned(combo, dkl, Wanted(p, r, mN, i))
    requires var claim := ClaimOf(p, r, mN, i); claim.Wants? ==> InTables(claim.phy, combo, dkl)
    ensures var claim := ClaimOf(p, r, mN, i);
      claim.Wants? ==>
        && Wanted(p, r, mN, i + 1) == Wanted(p, r, mN, i) + [claim.phy]
        && (Disjoint(Wanted(p, r, mN, i + 1)) <==> !Taken(claim.phy, combo, dkl))
        && (!Taken(claim.phy, combo, dkl) ==>
              Owned(MarkCombo(combo, claim.phy, true), MarkDkl(dkl, claim.phy, true), Wanted(p, r, mN, i + 1)))
  {
    var claim := ClaimOf(p, r, mN, i);
    if claim.Wants? {
      OwnedNext(combo, dkl, Wanted(p, r, mN, i), claim.phy);
    }
  }

  class PhyList {
    const platform: Platform
    const combo: array<bool>
    const dkl: array<bool>
    var listed: seq<Listed>

    ghost predicate Valid()
      reads this
    {
      && WellFormed(platform)
      && combo != dkl && combo.Length == COMBO_TABLE && dkl.Length == DKL_TABLE
      && forall k :: 0 <= k < |listed| ==> HasEntry(listed[k])
    }

    ghost predicate Clear()
      reads combo, dkl
    {
      (forall d :: 0 <= d < combo.Length ==> !combo[d]) && (forall d :: 0 <= d < dkl.Length ==> !dkl[d])
    }

    constructor (platform: Platform)
      requires WellFormed(platform)
      ensures Valid() && Clear() && listed == [] && this.platform == platform && fresh(combo) && fresh(dkl)
      ensures combo.Length == 4 && dkl.Length == 6
    {
      this.platform := platform;
      combo := new bool[COMBO_TABLE](_ => false);
      dkl := new bool[DKL_TABLE](_ => false);
      listed := [];
    }

    /**
     The constructor of the class for `d`, and the deletion of the object when it does not initialise. The
     destructor of a DKL object clears the flag of its DPLL even when another object owns it.
     */
    method NewPhy(r: Registers, d: Ddi, pipe: nat) returns (phy: Option<Listed>)
      requires Valid() && FitsTables(platform, d)
      modifies combo, dkl
      ensures var claim := ClaimOn(platform, r, d, pipe);
        && (claim.Wants? ==> InTables(claim.phy, old(combo[..]), old(dkl[..])))
        && (phy.Some? <==> claim.Wants? && !Taken(claim.phy, old(combo[..]), old(dkl[..])))
        && (phy.Some? ==>
              && phy.value == claim.phy
              && combo[..] == MarkCombo(old(combo[..]), phy.value, true)
              && dkl[..] == MarkDkl(old(dkl[..]), phy.value, true))
      ensures phy.None? ==>
        combo[..] == old(combo[..]) && forall i :: 0 <= i < dkl.Length ==> dkl[i] ==> old(dkl[i])
      ensures d.kind.COMBO? ==>
        var dpclk := r.dpclk(d.dpclk);
        var dpll := GetBitsVal(dpclk, d.muxLow + 1, d.muxLow);
        && dpll < 4 && (phy.Some? <==> And(dpclk, Pow2(d.clockBit)) == 0 && !old(combo[..])[dpll])
        && (phy.Some? ==> phy.value == OnCombo(pipe, dpll))
      ensures d.kind.DKL? ==>
        && (phy.Some? <==> && d.deClk >= platform.firstDkl && r.dklPllDiv0(d.deClk - platform.firstDkl) != Pow2(32) - 1
                           && !old(dkl[d.deClk - platform.firstDkl]))
        && (phy.Some? ==> phy.value == OnDkl(pipe, d.deClk - platform.firstDkl))
    {
      ClaimInTables(platform, r, d, pipe);
      KindsClaim(platform, r, d, pipe);
      AllOnes();
      if d.kind.COMBO? {
        MuxRange(r.dpclk(d.dpclk), d.muxLow);
      }
      match d.kind
      case COMBO =>
        var dpclk := r.dpclk(d.dpclk);
        if BitSet(dpclk, d.clockBit) {
          return None;
        }
        var dpll := Field(dpclk, d.muxLow + 1, d.muxLow);
        if combo[dpll] {
          return None;
        }
        combo[dpll] := true;
        return Some(OnCombo(pipe, dpll));
      case DKL =>
        if d.deClk < platform.firstDkl {
          dkl[0] := false;
          return None;
        }
        var dpll := d.deClk - platform.firstDkl;
        if r.dklPllDiv0(dpll) != 0xFFFF_FFFF && !dkl[dpll] {
          dkl[dpll] := true;
          return Some(OnDkl(pipe, dpll));
        }
        dkl[dpll] := false;
        return None;
      case C10 => return Some(OnC10(pipe));
      case C20 => return Some(OnC20(pipe));
      case Unsupported => return None;
    }

    /** Looks for the interface a pipe is connected to. */
    method FindDdi(deClk: nat) returns (j: nat)
      ensures j == FirstDdi(platform.ddis, deClk, 0)
    {
      j := 0;
      while j < |platform.ddis| && platform.ddis[j].deClk != deClk
        invariant j <= |platform.ddis| && FirstDdi(platform.ddis, deClk, 0) == FirstDdi(platform.ddis, deClk, j)
      {
        j := j + 1;
      }
    }

    /** The object for one pipe, if it asks for one, when those of the pipes before it are listed. */
    method AddPipe(r: Registers, mN: bool, i: nat) returns (status: Status)
      requires Valid() && i < PIPES && listed == Wanted(platform, r, mN, i)
      requires Disjoint(listed) && Owned(combo[..], dkl[..], listed)
      modifies this`listed, combo, dkl
      ensures Valid() && Covered(combo[..], dkl[..], listed)
      ensures status.Success? <==> !ClaimOf(platform, r, mN, i).Unusable? && Disjoint(Wanted(platform, r, mN, i + 1))
      ensures status.Success? ==> listed == Wanted(platform, r, mN, i + 1) && Owned(combo[..], dkl[..], listed)
    {
      var val := r.transDdiFuncCtl(i);
      if !BitSet(val, ENABLE_BIT) {
        return Success;
      }
      var mode := Field(val, MODE_HIGH, MODE_LOW);
      var j := FindDdi(Field(val, DDI_HIGH, DDI_LOW));
      if j == |platform.ddis| {
        return Success;
      }
      var phy: Option<Listed>;
      ghost var c, d := combo[..], dkl[..];
      if mN && (mode == DP_SST || mode == DP_MST) {
        phy := Some(OnMN(i));
      } else {
        ClaimInTables(platform, r, platform.ddis[j], i);
        phy := NewPhy(r, platform.ddis[j], i);
      }
      NextPipe(platform, r, mN, i, c, d);
      if phy.None? {
        return Failure;
      }
      listed := listed + [phy.value];
      return Success;
    }

    /**
     Succeeds exactly when every pipe that is on and known comes to a usable object and no two of them are
     on the same DPLL. Then the list holds those objects in pipe order and the flags are those of their
     owners. However it ends, no flag is left without an owner in the list.
     */
    method FindEnabledPhys(r: Registers, mN: bool) returns (status: Status)
      requires Valid() && Clear() && listed == []
      modifies this`listed, combo, dkl
      ensures Valid() && Covered(combo[..], dkl[..], listed)
      ensures status.Success? <==> AllUsable(platform, r, mN, 4) && Disjoint(Wanted(platform, r, mN, 4))
      ensures status.Success? ==> listed == Wanted(platform, r, mN, 4) && Owned(combo[..], dkl[..], listed)
    {
      for i := 0 to PIPES
        invariant Valid() && listed == Wanted(platform, r, mN, i)
        invariant AllUsable(platform, r, mN, i) && Disjoint(listed) && Owned(combo[..], dkl[..], listed)
      {
        status := AddPipe(r, mN, i);
        if status.Failure? {
          FailureIsFinal(platform, r, mN, i, PIPES);
          return;
        }
      }
      return Success;
    }

    /** Deletes every listed object: all flags are clear again. */
    method CleanupPhyList()
      requires Valid() && Covered(combo[..], dkl[..], listed)
      modifies this`listed, combo, dkl
      ensures Valid() && Clear() && listed == []
    {
      while listed != []
        invariant Valid() && Covered(combo[..], dkl[..], listed)
        decreases |listed|
      {
        CoveredRest(combo[..], dkl[..], listed);
        ghost var c, d := combo[..], dkl[..];
        match listed[0] {
          case OnCombo(pipe, dpll) => combo[dpll] := false;
          case OnDkl(pipe, dpll) => dkl[dpll] := false;
          case _ =>
        }
        assert combo[..] == MarkCombo(c, listed[0], false) && dkl[..] == MarkDkl(d, listed[0], false);
        listed := listed[1..];
      }
    }
  }
}
