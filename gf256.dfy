/**
 * Arithmetic in GF(256), the field under the Reed-Solomon encoder
 * (src/reed-solomon.ts).
 *
 * The field is built from the primitive polynomial x^8 + x^4 + x^3 + x^2 + 1
 * (0x11D). Field elements and codewords are bytes, held as 8-bit vectors.
 * `InitializeGF256Tables` fills two arrays exactly as the source's start-up
 * loop fills its module-level tables, and is proved to leave in them the
 * values `ANTILOG` and `LOG`, which the rest of the module reads.
 */
module GF256 {
  import opened Types

  /** The number of turns of the table loop: the non-zero elements of the field. */
  const GF_ORDER: nat := 255

  /**
   * One turn of the table loop, as the source writes it on a wider integer:
   * shift left, and reduce by 0x11D when bit 8 comes out set.
   */
  function SourceStep(x: bv16): bv16 {
    var s := x << 1;
    if s & 0x100 != 0 then s ^ 0x11D else s
  }

  /** The same turn on a byte: multiplication by x in GF(256). */
  function Step(x: bv8): bv8 {
    if x & 0x80 != 0 then (x << 1) ^ 0x1D else x << 1
  }

  /** On bytes, the 8-bit step and the source's 16-bit step agree. */
  lemma StepMatchesSource(x: bv8)
    ensures SourceStep(x as bv16) == Step(x) as bv16
  {
  }

  lemma StepNonZero(x: bv8)
    requires x != 0
    ensures Step(x) != 0
  {
  }

  /** Step is one-to-one, so it permutes the non-zero field elements. */
  lemma StepInjective(x: bv8, y: bv8)
    requires Step(x) == Step(y)
    ensures x == y
  {
  }

  /** The reduction term Step adds: 0x1D exactly when the top bit is shifted out. */
  function Carry(x: bv8): bv8 {
    if x & 0x80 != 0 then 0x1D else 0
  }

  /** The shift of the step, without its reduction. */
  function Shifted(x: bv8): bv8 {
    x << 1
  }

  lemma StepForm(x: bv8)
    ensures Step(x) == Shifted(x) ^ Carry(x)
  {
  }

  lemma CarryLinear(x: bv8, y: bv8)
    ensures Carry(x ^ y) == Carry(x) ^ Carry(y)
  {
  }

  lemma ShiftLinear(x: bv8, y: bv8)
    ensures Shifted(x ^ y) == Shifted(x) ^ Shifted(y)
  {
  }

  /** Step distributes over exclusive or: multiplication by x is linear. */
  lemma StepLinear(x: bv8, y: bv8)
    ensures Step(x ^ y) == Step(x) ^ Step(y)
  {
    calc {
      Step(x ^ y);
    == { StepForm(x ^ y); }
      Shifted(x ^ y) ^ Carry(x ^ y);
    == { ShiftLinear(x, y); CarryLinear(x, y); }
      (Shifted(x) ^ Shifted(y)) ^ (Carry(x) ^ Carry(y));
    == { XorInterchange(Shifted(x), Shifted(y), Carry(x), Carry(y)); }
      (Shifted(x) ^ Carry(x)) ^ (Shifted(y) ^ Carry(y));
    == { StepForm(x); StepForm(y); }
      Step(x) ^ Step(y);
    }
  }

  lemma XorInterchange(a: bv8, b: bv8, c: bv8, d: bv8)
    ensures (a ^ b) ^ (c ^ d) == (a ^ c) ^ (b ^ d)
  {
  }

  /** alpha^i: the loop variable `x` at the start of turn i. Never zero. */
  function Power(i: nat): (x: bv8)
    ensures x != 0
  {
    if i == 0 then 1 else StepNonZero(Power(i - 1)); Step(Power(i - 1))
  }

  /** Step applied i times to x. */
  function StepN(x: bv8, i: nat): bv8 {
    if i == 0 then x else Step(StepN(x, i - 1))
  }

  /**
   * Started from x at turn k, the loop value differs from 1 at every turn
   * before 255 and is 1 at turn 255.
   */
  predicate ReturnsAt255(k: nat, x: bv8)
    decreases 255 - k
  {
    if k >= 255 then x == 1 else x != 1 && ReturnsAt255(k + 1, Step(x))
  }

  // The cycle of alpha, checked 32 turns at a time from turn 255 backwards.

  lemma CycleFrom223()
    ensures ReturnsAt255(223, 9)
  {
    assert ReturnsAt255(254, 142);
    assert ReturnsAt255(253, 71);
    assert ReturnsAt255(252, 173);
    assert ReturnsAt255(251, 216);
    assert ReturnsAt255(250, 108);
    assert ReturnsAt255(249, 54);
    assert ReturnsAt255(248, 27);
    assert ReturnsAt255(247, 131);
    assert ReturnsAt255(246, 207);
    assert ReturnsAt255(245, 233);
    assert ReturnsAt255(244, 250);
    assert ReturnsAt255(243, 125);
    assert ReturnsAt255(242, 176);
    assert ReturnsAt255(241, 88);
    assert ReturnsAt255(240, 44);
    assert ReturnsAt255(239, 22);
    assert ReturnsAt255(238, 11);
    assert ReturnsAt255(237, 139);
    assert ReturnsAt255(236, 203);
    assert ReturnsAt255(235, 235);
    assert ReturnsAt255(234, 251);
    assert ReturnsAt255(233, 243);
    assert ReturnsAt255(232, 247);
    assert ReturnsAt255(231, 245);
    assert ReturnsAt255(230, 244);
    assert ReturnsAt255(229, 122);
    assert ReturnsAt255(228, 61);
    assert ReturnsAt255(227, 144);
    assert ReturnsAt255(226, 72);
    assert ReturnsAt255(225, 36);
    assert ReturnsAt255(224, 18);
    assert ReturnsAt255(223, 9);
  }

  lemma CycleFrom191()
    ensures ReturnsAt255(191, 65)
  {
    CycleFrom223();
    assert ReturnsAt255(222, 138);
    assert ReturnsAt255(221, 69);
    assert ReturnsAt255(220, 172);
    assert ReturnsAt255(219, 86);
    assert ReturnsAt255(218, 43);
    assert ReturnsAt255(217, 155);
    assert ReturnsAt255(216, 195);
    assert ReturnsAt255(215, 239);
    assert ReturnsAt255(214, 249);
    assert ReturnsAt255(213, 242);
    assert ReturnsAt255(212, 121);
    assert ReturnsAt255(211, 178);
    assert ReturnsAt255(210, 89);
    assert ReturnsAt255(209, 162);
    assert ReturnsAt255(208, 81);
    assert ReturnsAt255(207, 166);
    assert ReturnsAt255(206, 83);
    assert ReturnsAt255(205, 167);
    assert ReturnsAt255(204, 221);
    assert ReturnsAt255(203, 224);
    assert ReturnsAt255(202, 112);
    assert ReturnsAt255(201, 56);
    assert ReturnsAt255(200, 28);
    assert ReturnsAt255(199, 14);
    assert ReturnsAt255(198, 7);
    assert ReturnsAt255(197, 141);
    assert ReturnsAt255(196, 200);
    assert ReturnsAt255(195, 100);
    assert ReturnsAt255(194, 50);
    assert ReturnsAt255(193, 25);
    assert ReturnsAt255(192, 130);
    assert ReturnsAt255(191, 65);
  }

  lemma CycleFrom159()
    ensures ReturnsAt255(159, 115)
  {
    CycleFrom191();
    assert ReturnsAt255(190, 174);
    assert ReturnsAt255(189, 87);
    assert ReturnsAt255(188, 165);
    assert ReturnsAt255(187, 220);
    assert ReturnsAt255(186, 110);
    assert ReturnsAt255(185, 55);
    assert ReturnsAt255(184, 149);
    assert ReturnsAt255(183, 196);
    assert ReturnsAt255(182, 98);
    assert ReturnsAt255(181, 49);
    assert ReturnsAt255(180, 150);
    assert ReturnsAt255(179, 75);
    assert ReturnsAt255(178, 171);
    assert ReturnsAt255(177, 219);
    assert ReturnsAt255(176, 227);
    assert ReturnsAt255(175, 255);
    assert ReturnsAt255(174, 241);
    assert ReturnsAt255(173, 246);
    assert ReturnsAt255(172, 123);
    assert ReturnsAt255(171, 179);
    assert ReturnsAt255(170, 215);
    assert ReturnsAt255(169, 229);
    assert ReturnsAt255(168, 252);
    assert ReturnsAt255(167, 126);
    assert ReturnsAt255(166, 63);
    assert ReturnsAt255(165, 145);
    assert ReturnsAt255(164, 198);
    assert ReturnsAt255(163, 99);
    assert ReturnsAt255(162, 191);
    assert ReturnsAt255(161, 209);
    assert ReturnsAt255(160, 230);
    assert ReturnsAt255(159, 115);
  }

  lemma CycleFrom127()
    ensures ReturnsAt255(127, 204)
  {
    CycleFrom159();
    assert ReturnsAt255(158, 183);
    assert ReturnsAt255(157, 213);
    assert ReturnsAt255(156, 228);
    assert ReturnsAt255(155, 114);
    assert ReturnsAt255(154, 57);
    assert ReturnsAt255(153, 146);
    assert ReturnsAt255(152, 73);
    assert ReturnsAt255(151, 170);
    assert ReturnsAt255(150, 85);
    assert ReturnsAt255(149, 164);
    assert ReturnsAt255(148, 82);
    assert ReturnsAt255(147, 41);
    assert ReturnsAt255(146, 154);
    assert ReturnsAt255(145, 77);
    assert ReturnsAt255(144, 168);
    assert ReturnsAt255(143, 84);
    assert ReturnsAt255(142, 42);
    assert ReturnsAt255(141, 21);
    assert ReturnsAt255(140, 132);
    assert ReturnsAt255(139, 66);
    assert ReturnsAt255(138, 33);
    assert ReturnsAt255(137, 158);
    assert ReturnsAt255(136, 79);
    assert ReturnsAt255(135, 169);
    assert ReturnsAt255(134, 218);
    assert ReturnsAt255(133, 109);
    assert ReturnsAt255(132, 184);
    assert ReturnsAt255(131, 92);
    assert ReturnsAt255(130, 46);
    assert ReturnsAt255(129, 23);
    assert ReturnsAt255(128, 133);
    assert ReturnsAt255(127, 204);
  }

  lemma CycleFrom95()
    ensures ReturnsAt255(95, 226)
  {
    CycleFrom127();
    assert ReturnsAt255(126, 102);
    assert ReturnsAt255(125, 51);
    assert ReturnsAt255(124, 151);
    assert ReturnsAt255(123, 197);
    assert ReturnsAt255(122, 236);
    assert ReturnsAt255(121, 118);
    assert ReturnsAt255(120, 59);
    assert ReturnsAt255(119, 147);
    assert ReturnsAt255(118, 199);
    assert ReturnsAt255(117, 237);
    assert ReturnsAt255(116, 248);
    assert ReturnsAt255(115, 124);
    assert ReturnsAt255(114, 62);
    assert ReturnsAt255(113, 31);
    assert ReturnsAt255(112, 129);
    assert ReturnsAt255(111, 206);
    assert ReturnsAt255(110, 103);
    assert ReturnsAt255(109, 189);
    assert ReturnsAt255(108, 208);
    assert ReturnsAt255(107, 104);
    assert ReturnsAt255(106, 52);
    assert ReturnsAt255(105, 26);
    assert ReturnsAt255(104, 13);
    assert ReturnsAt255(103, 136);
    assert ReturnsAt255(102, 68);
    assert ReturnsAt255(101, 34);
    assert ReturnsAt255(100, 17);
    assert ReturnsAt255(99, 134);
    assert ReturnsAt255(98, 67);
    assert ReturnsAt255(97, 175);
    assert ReturnsAt255(96, 217);
    assert ReturnsAt255(95, 226);
  }

  lemma CycleFrom63()
    ensures ReturnsAt255(63, 161)
  {
    CycleFrom95();
    assert ReturnsAt255(94, 113);
    assert ReturnsAt255(93, 182);
    assert ReturnsAt255(92, 91);
    assert ReturnsAt255(91, 163);
    assert ReturnsAt255(90, 223);
    assert ReturnsAt255(89, 225);
    assert ReturnsAt255(88, 254);
    assert ReturnsAt255(87, 127);
    assert ReturnsAt255(86, 177);
    assert ReturnsAt255(85, 214);
    assert ReturnsAt255(84, 107);
    assert ReturnsAt255(83, 187);
    assert ReturnsAt255(82, 211);
    assert ReturnsAt255(81, 231);
    assert ReturnsAt255(80, 253);
    assert ReturnsAt255(79, 240);
    assert ReturnsAt255(78, 120);
    assert ReturnsAt255(77, 60);
    assert ReturnsAt255(76, 30);
    assert ReturnsAt255(75, 15);
    assert ReturnsAt255(74, 137);
    assert ReturnsAt255(73, 202);
    assert ReturnsAt255(72, 101);
    assert ReturnsAt255(71, 188);
    assert ReturnsAt255(70, 94);
    assert ReturnsAt255(69, 47);
    assert ReturnsAt255(68, 153);
    assert ReturnsAt255(67, 194);
    assert ReturnsAt255(66, 97);
    assert ReturnsAt255(65, 190);
    assert ReturnsAt255(64, 95);
    assert ReturnsAt255(63, 161);
  }

  lemma CycleFrom31()
    ensures ReturnsAt255(31, 192)
  {
    CycleFrom63();
    assert ReturnsAt255(62, 222);
    assert ReturnsAt255(61, 111);
    assert ReturnsAt255(60, 185);
    assert ReturnsAt255(59, 210);
    assert ReturnsAt255(58, 105);
    assert ReturnsAt255(57, 186);
    assert ReturnsAt255(56, 93);
    assert ReturnsAt255(55, 160);
    assert ReturnsAt255(54, 80);
    assert ReturnsAt255(53, 40);
    assert ReturnsAt255(52, 20);
    assert ReturnsAt255(51, 10);
    assert ReturnsAt255(50, 5);
    assert ReturnsAt255(49, 140);
    assert ReturnsAt255(48, 70);
    assert ReturnsAt255(47, 35);
    assert ReturnsAt255(46, 159);
    assert ReturnsAt255(45, 193);
    assert ReturnsAt255(44, 238);
    assert ReturnsAt255(43, 119);
    assert ReturnsAt255(42, 181);
    assert ReturnsAt255(41, 212);
    assert ReturnsAt255(40, 106);
    assert ReturnsAt255(39, 53);
    assert ReturnsAt255(38, 148);
    assert ReturnsAt255(37, 74);
    assert ReturnsAt255(36, 37);
    assert ReturnsAt255(35, 156);
    assert ReturnsAt255(34, 78);
    assert ReturnsAt255(33, 39);
    assert ReturnsAt255(32, 157);
    assert ReturnsAt255(31, 192);
  }

  lemma CycleFrom1()
    ensures ReturnsAt255(1, 2)
  {
    CycleFrom31();
    assert ReturnsAt255(30, 96);
    assert ReturnsAt255(29, 48);
    assert ReturnsAt255(28, 24);
    assert ReturnsAt255(27, 12);
    assert ReturnsAt255(26, 6);
    assert ReturnsAt255(25, 3);
    assert ReturnsAt255(24, 143);
    assert ReturnsAt255(23, 201);
    assert ReturnsAt255(22, 234);
    assert ReturnsAt255(21, 117);
    assert ReturnsAt255(20, 180);
    assert ReturnsAt255(19, 90);
    assert ReturnsAt255(18, 45);
    assert ReturnsAt255(17, 152);
    assert ReturnsAt255(16, 76);
    assert ReturnsAt255(15, 38);
    assert ReturnsAt255(14, 19);
    assert ReturnsAt255(13, 135);
    assert ReturnsAt255(12, 205);
    assert ReturnsAt255(11, 232);
    assert ReturnsAt255(10, 116);
    assert ReturnsAt255(9, 58);
    assert ReturnsAt255(8, 29);
    assert ReturnsAt255(7, 128);
    assert ReturnsAt255(6, 64);
    assert ReturnsAt255(5, 32);
    assert ReturnsAt255(4, 16);
    assert ReturnsAt255(3, 8);
    assert ReturnsAt255(2, 4);
    assert ReturnsAt255(1, 2);
  }

  lemma {:induction false} PowerCycle(k: nat)
    requires 1 <= k <= 255
    ensures ReturnsAt255(k, Power(k))
  {
    if k == 1 {
      CycleFrom1();
    } else {
      PowerCycle(k - 1);
    }
  }

  /** alpha = 2 has order 255: alpha^k = 1 for k in [1, 255] only at k = 255. */
  lemma PowerOrder(k: nat)
    requires 1 <= k <= 255
    ensures Power(k) == 1 <==> k == 255
  {
    PowerCycle(k);
  }

  /** Equal powers j - i apart make alpha^(j - i) equal to 1. */
  lemma {:induction false} PowerShiftBack(i: nat, j: nat)
    requires i <= j && Power(i) == Power(j)
    ensures Power(j - i) == 1
    decreases i
  {
    if i > 0 {
      StepInjective(Power(i - 1), Power(j - 1));
      PowerShiftBack(i - 1, j - 1);
    }
  }

  /** alpha^0, ..., alpha^254 are pairwise distinct. */
  lemma PowersDistinct(i: nat, j: nat)
    requires i < j < 255
    ensures Power(i) != Power(j)
  {
    if Power(i) == Power(j) {
      PowerShiftBack(i, j);
      PowerOrder(j - i);
    }
  }

  ghost function PowersBelow(n: nat): set<int> {
    set i | 0 <= i < n :: Power(i) as int
  }

  lemma {:induction false} PowersBelowSize(n: nat)
    requires n <= 255
    ensures |PowersBelow(n)| == n
  {
    if n > 0 {
      PowersBelowSize(n - 1);
      var p := Power(n - 1) as int;
      if p in PowersBelow(n - 1) {
        var i :| 0 <= i < n - 1 && Power(i) as int == p;
        PowersDistinct(i, n - 1);
      }
      assert PowersBelow(n) == PowersBelow(n - 1) + {p};
    }
  }

  ghost function NonZeroBelow(n: nat): (s: set<int>)
    ensures forall v :: v in s <==> 1 <= v < n
    ensures n >= 1 ==> |s| == n - 1
  {
    if n <= 1 then {} else NonZeroBelow(n - 1) + {n - 1}
  }

  /** Every non-zero byte is a power of alpha: 255 distinct non-zero values fill all 255 slots. */
  lemma PowersCoverNonZero(v: int)
    requires 1 <= v < 256
    ensures exists i :: 0 <= i < 255 && Power(i) as int == v
  {
    var P, R := PowersBelow(GF_ORDER), NonZeroBelow(GF_ORDER + 1);
    PowersBelowSize(GF_ORDER);
    assert P <= R;
    assert P * R == P;
    assert P + R == R;
    assert |R - P| == 0;
    assert v in R;
    assert v in P;
  }

  lemma Widen(b: bv8)
    ensures (b as bv16) as int == b as int
  {
  }

  /** alpha^k as a JavaScript number. */
  function PowerValue(k: nat): (v: int)
    ensures 1 <= v < 256
  {
    Power(k) as int
  }

  /** One turn of the initialisation loop: x is alpha^i, and the shift-and-reduce gives alpha^(i+1). */
  lemma PowerValueNext(x: bv16, i: nat)
    requires i < 255 && x == Power(i) as bv16
    ensures x as int == PowerValue(i) && SourceStep(x) == Power(i + 1) as bv16
  {
    Widen(Power(i));
    StepMatchesSource(Power(i));
  }

  lemma PowerValuesDistinct(k: nat, i: nat)
    requires k < i < 255
    ensures PowerValue(k) != PowerValue(i)
  {
    PowersDistinct(k, i);
  }

  /** alpha^i differs from every earlier power. */
  lemma PowerValueFresh(i: nat)
    requires i < 255
    ensures forall k | 0 <= k < i :: PowerValue(k) != PowerValue(i)
  {
    forall k | 0 <= k < i
      ensures PowerValue(k) != PowerValue(i)
    {
      PowerValuesDistinct(k, i);
    }
  }

  /**
   * LOG_TABLE as a function: the exponent of v, found by searching alpha^k, ..., alpha^254.
   * For v = 0 the search fails and yields 0, the value the special case stores.
   */
  function LogSearch(v: bv8, k: nat): (r: nat)
    requires k <= 255
    ensures r < 255
    decreases 255 - k
  {
    if k == 255 then 0 else if Power(k) == v then k else LogSearch(v, k + 1)
  }

  /**
   * Where the search starts. A named constant rather than the literal 0, so
   * that the verifier does not run the whole search whenever it meets Log.
   */
  const SEARCH_START: nat := 0

  function Log(v: bv8): (r: nat)
    ensures r < 255
  {
    LogSearch(v, SEARCH_START)
  }

  lemma {:induction false} LogSearchFindsPower(i: nat, k: nat)
    requires k <= i < 255
    ensures LogSearch(Power(i), k) == i
    decreases i - k
  {
    if k < i {
      PowersDistinct(k, i);
      LogSearchFindsPower(i, k + 1);
    }
  }

  lemma {:induction false} LogSearchOfZero(k: nat)
    requires k <= 255
    ensures LogSearch(0, k) == 0
    decreases 255 - k
  {
    if k < 255 {
      LogSearchOfZero(k + 1);
    }
  }

  /** LOG[ANTILOG[i]] = i for every i in [0, 255). */
  lemma LogOfPower(i: nat)
    requires i < 255
    ensures Log(Power(i)) == i
  {
    LogSearchFindsPower(i, SEARCH_START);
  }

  /** LOG[0] = 0. */
  lemma LogOfZero()
    ensures Log(0) == 0
  {
    LogSearchOfZero(SEARCH_START);
  }

  lemma Narrow(x: bv8, y: bv8)
    requires x as int == y as int
    ensures x == y
  {
  }

  /** ANTILOG[LOG[v]] = v for every non-zero byte v. */
  lemma PowerOfLog(v: bv8)
    requires v != 0
    ensures Power(Log(v)) == v
  {
    PowersCoverNonZero(v as int);
    var i :| 0 <= i < 255 && Power(i) as int == v as int;
    Narrow(Power(i), v);
    LogOfPower(i);
  }

  /** A 256-slot table that maps each alpha^i to i and 0 to 0 is LOG_TABLE everywhere. */
  lemma LogTableDetermined(t: seq<int>)
    requires |t| == 256 && t[0] == 0
    requires forall i | 0 <= i < 255 :: t[PowerValue(i)] == i
    ensures forall v: bv8 :: t[v as int] == Log(v)
  {
    forall v: bv8
      ensures t[v as int] == Log(v)
    {
      if v == 0 {
        LogOfZero();
      } else {
        PowerOfLog(v);
        assert PowerValue(Log(v)) == v as int;
      }
    }
  }

  /**
   * initializeGF256Tables, on two 256-slot arrays standing for the module-level
   * LOG_TABLE and ANTILOG_TABLE. Slot i of the antilog table receives alpha^i,
   * the log table maps alpha^i back to i, and slot 0 of the log table is 0;
   * slot 255 of the antilog table keeps whatever it held. Since the powers
   * cover every non-zero byte, this fixes all 256 log slots.
   */
  method InitializeGF256Tables(logTable: array<int>, antilogTable: array<int>)
    requires logTable.Length == 256 && antilogTable.Length == 256 && logTable != antilogTable
    modifies logTable, antilogTable
    ensures forall i | 0 <= i < 255 :: antilogTable[i] == PowerValue(i)
    ensures antilogTable[255] == old(antilogTable[255])
    ensures forall v: bv8 :: logTable[v as int] == Log(v)
  {
    var x: bv16 := 1;
    var i := 0;
    while i < GF_ORDER
      invariant 0 <= i <= GF_ORDER
      invariant x == Power(i) as bv16
      invariant forall k | 0 <= k < i :: antilogTable[k] == PowerValue(k)
      invariant antilogTable[255] == old(antilogTable[255])
      invariant forall k | 0 <= k < i :: logTable[PowerValue(k)] == k
    {
      PowerValueNext(x, i);
      PowerValueFresh(i);
      antilogTable[i] := x as int;
      logTable[x as int] := i;
      x := x << 1;
      if x & 0x100 != 0 {
        x := x ^ 0x11D;
      }
      i := i + 1;
    }
    logTable[0] := 0;
    LogTableDetermined(logTable[..]);
  }

  // ---------------------------------------------------------------------------
  // gfMultiply and gfDivide
  // ---------------------------------------------------------------------------

  /** ANTILOG_TABLE[i] for i in [0, 255): alpha^i, never zero. */
  function Antilog(i: nat): (x: bv8)
    requires i < 255
    ensures x != 0
  {
    Power(i)
  }

  /** Every non-zero byte is alpha to its logarithm. */
  lemma AntilogOfLog(v: bv8)
    requires v != 0
    ensures Antilog(Log(v)) == v
  {
    PowerOfLog(v);
  }

  /** The exponent gfMultiply looks up: the sum of two logarithms modulo 255. */
  function ExponentSum(x: nat, y: nat): (r: nat)
    requires x < 255 && y < 255
    ensures r == if x + y < 255 then x + y else x + y - 255
  {
    (x + y) % 255
  }

  /** The exponent gfDivide looks up: the difference of two logarithms, plus 255, modulo 255. */
  function ExponentDifference(x: nat, y: nat): (r: nat)
    requires x < 255 && y < 255
    ensures r == if x >= y then x - y else x - y + 255
  {
    (x - y + 255) % 255
  }

  /**
   * gfMultiply: 0 when either factor is 0, otherwise the antilog of the sum
   * of the logarithms, taken modulo 255.
   */
  function GfMultiply(a: bv8, b: bv8): (r: bv8)
    ensures r == 0 <==> a == 0 || b == 0
  {
    if a == 0 || b == 0 then 0 else Antilog(ExponentSum(Log(a), Log(b)))
  }

  /** The table product obeys the exponent law: alpha^i * alpha^j = alpha^((i + j) mod 255). */
  lemma GfMultiplyPowers(i: nat, j: nat)
    requires i < 255 && j < 255
    ensures GfMultiply(Antilog(i), Antilog(j)) == Antilog(ExponentSum(i, j))
  {
    LogOfPower(i);
    LogOfPower(j);
  }

  /**
   * Multiplying by alpha = 2 through the tables is one shift-and-reduce step:
   * the tables agree with the polynomial arithmetic they were built from.
   */
  lemma GfMultiplyByAlpha(x: bv8)
    ensures GfMultiply(2, x) == Step(x)
  {
    if x != 0 {
      assert Power(1) == 2;
      LogOfPower(1);
      var l := Log(x);
      AntilogOfLog(x);
      if l < 254 {
        assert Power(l + 1) == Step(Power(l));
      } else {
        PowerOrder(255);
        assert Power(255) == Step(Power(254));
      }
    }
  }

  /** gfMultiply is commutative. */
  lemma GfMultiplyCommutes(a: bv8, b: bv8)
    ensures GfMultiply(a, b) == GfMultiply(b, a)
  {
  }

  /** 1 is the identity of gfMultiply. */
  lemma GfMultiplyOne(c: bv8)
    ensures GfMultiply(1, c) == c
  {
    LogOfPower(0);
    if c != 0 {
      AntilogOfLog(c);
    }
  }

  /** The logarithm of a non-zero product is the sum of the logarithms modulo 255. */
  lemma LogOfProduct(a: bv8, b: bv8)
    requires a != 0 && b != 0
    ensures GfMultiply(a, b) == Antilog(ExponentSum(Log(a), Log(b)))
    ensures Log(GfMultiply(a, b)) == ExponentSum(Log(a), Log(b))
  {
    LogOfPower(ExponentSum(Log(a), Log(b)));
  }

  /** gfMultiply is associative. */
  lemma GfMultiplyAssociates(a: bv8, b: bv8, c: bv8)
    ensures GfMultiply(GfMultiply(a, b), c) == GfMultiply(a, GfMultiply(b, c))
  {
    if a != 0 && b != 0 && c != 0 {
      LogOfProduct(a, b);
      LogOfProduct(b, c);
      LogOfProduct(GfMultiply(a, b), c);
      LogOfProduct(a, GfMultiply(b, c));
      assert ExponentSum(ExponentSum(Log(a), Log(b)), Log(c)) == ExponentSum(Log(a), ExponentSum(Log(b), Log(c)));
    }
  }

  /**
   * gfDivide: 0 when the dividend is 0, whatever the divisor; a division
   * error when only the divisor is 0; otherwise the antilog of the
   * difference of the logarithms.
   */
  function GfDivide(a: bv8, b: bv8): (r: Result<bv8>)
    ensures r.Err? <==> a != 0 && b == 0
    ensures r.Err? ==> r.error == DivisionByZero
    ensures r.Ok? ==> (r.value == 0 <==> a == 0)
  {
    if a == 0 then Ok(0)
    else if b == 0 then Err(DivisionByZero)
    else Ok(Antilog(ExponentDifference(Log(a), Log(b))))
  }

  /** The logarithm of a quotient of non-zero bytes is the difference of the logarithms. */
  lemma LogOfQuotient(a: bv8, b: bv8)
    requires a != 0 && b != 0
    ensures GfDivide(a, b) == Ok(Antilog(ExponentDifference(Log(a), Log(b))))
    ensures Log(GfDivide(a, b).value) == ExponentDifference(Log(a), Log(b))
  {
    LogOfPower(ExponentDifference(Log(a), Log(b)));
  }

  /** Dividing a product by one factor gives back the other. */
  lemma DivideUndoesMultiply(a: bv8, b: bv8)
    requires b != 0
    ensures GfDivide(GfMultiply(a, b), b) == Ok(a)
  {
    if a != 0 {
      var m := GfMultiply(a, b);
      LogOfProduct(a, b);
      LogOfQuotient(m, b);
      assert ExponentDifference(Log(m), Log(b)) == Log(a);
      AntilogOfLog(a);
    }
  }

  /** Multiplying a quotient by the divisor gives back the dividend. */
  lemma MultiplyUndoesDivide(a: bv8, b: bv8)
    requires b != 0
    ensures GfDivide(a, b).Ok? && GfMultiply(GfDivide(a, b).value, b) == a
  {
    if a != 0 {
      var d := GfDivide(a, b).value;
      LogOfQuotient(a, b);
      LogOfProduct(d, b);
      assert ExponentSum(Log(d), Log(b)) == Log(a);
      AntilogOfLog(a);
    }
  }
}
