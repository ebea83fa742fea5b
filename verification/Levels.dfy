// zlog's level bitmaps: how rule.c builds them, how category.c merges them, and what they say.
module Levels {

  type Octet = bv8
  type Bitmap = seq<Octet>

  const BITMAP_SIZE := 32

  /** The bitmap memset leaves. */
  function NoLevels(): (b: Bitmap)
    ensures |b| == BITMAP_SIZE && forall i :: 0 <= i < BITMAP_SIZE ==> b[i] == 0
  {
    seq(BITMAP_SIZE, _ => 0)
  }

  /** (unsigned char) (1 << (7 - r)), where r is -1 for a level name that was not found. */
  function Single(r: int): Octet
    requires -1 <= r < 8
  {
    match r
    case -1 => 0
    case 0 => 1 << 7
    case 1 => 1 << 6
    case 2 => 1 << 5
    case 3 => 1 << 4
    case 4 => 1 << 3
    case 5 => 1 << 2
    case 6 => 1 << 1
    case _ => 1
  }

  /** (unsigned char) ~(0xFF << (8 - r)) */
  function FromOn(r: int): Octet
    requires -1 <= r < 8
  {
    match r
    case -1 => 0xFF
    case 0 => 0xFF
    case 1 => !(0xFF << 7)
    case 2 => !(0xFF << 6)
    case 3 => !(0xFF << 5)
    case 4 => !(0xFF << 4)
    case 5 => !(0xFF << 3)
    case 6 => !(0xFF << 2)
    case _ => !(0xFF << 1)
  }

  /** b >> (7 - j) */
  function ShiftDown(b: Octet, j: int): Octet
    requires 0 <= j < 8
  {
    match j
    case 0 => b >> 7
    case 1 => b >> 6
    case 2 => b >> 5
    case 3 => b >> 4
    case 4 => b >> 3
    case 5 => b >> 2
    case 6 => b >> 1
    case _ => b
  }

  /** 0xFF with the bit of level r cleared. */
  function AllBut(r: int): Octet
    requires -1 <= r < 8
  {
    0xFF & !Single(r)
  }

  /** (b >> (7 - j)) & 0x01 */
  function Test(b: Octet, j: int): bool
    requires 0 <= j < 8
  {
    ShiftDown(b, j) & 1 == 1
  }

  lemma SingleTest(r: int, j: int)
    requires -1 <= r < 8 && 0 <= j < 8
    ensures Test(Single(r), j) <==> j == r
  {
  }

  lemma FromOnTest(r: int, j: int)
    requires -1 <= r < 8 && 0 <= j < 8
    ensures Test(FromOn(r), j) <==> j >= r
  {
  }

  lemma OrTest(a: Octet, b: Octet, j: int)
    requires 0 <= j < 8
    ensures Test(a | b, j) <==> Test(a, j) || Test(b, j)
  {
    hide Test, Single;
    TestIsMask(a, j);
    TestIsMask(b, j);
    TestIsMask(a | b, j);
    OrMask(a, b, Single(j));
  }

  lemma OrMask(a: Octet, b: Octet, m: Octet)
    ensures (a | b) & m != 0 <==> a & m != 0 || b & m != 0
  {
  }

  lemma TestIsMask(b: Octet, j: int)
    requires 0 <= j < 8
    ensures Test(b, j) <==> b & Single(j) != 0
  {
  }

  lemma ClearTest(r: int, j: int)
    requires -1 <= r < 8 && 0 <= j < 8
    ensures Test(AllBut(r), j) <==> j != r
  {
  }

  lemma ConstantTest(j: int)
    requires 0 <= j < 8
    ensures Test(0xFF, j) && !Test(0, j)
  {
  }

  // ---------- levels ----------

  predicate IsLevel(lv: int) {
    0 <= lv <= 255
  }

  /** C's lv / 8 and lv % 8 for lv >= -1. */
  function ByteOfLevel(lv: int): (k: int)
    requires -1 <= lv <= 255
    ensures 0 <= k < BITMAP_SIZE
  {
    if lv == -1 then 0 else lv / 8
  }

  function BitOfLevel(lv: int): (r: int)
    requires -1 <= lv <= 255
    ensures -1 <= r < 8 && (IsLevel(lv) ==> 0 <= r)
  {
    if lv == -1 then -1 else lv % 8
  }

  lemma LevelOrder(lv: int, level: int)
    requires IsLevel(lv) && -1 <= level <= 255
    ensures lv == level <==> ByteOfLevel(lv) == ByteOfLevel(level) && BitOfLevel(lv) == BitOfLevel(level)
    ensures lv >= level <==>
      ByteOfLevel(lv) > ByteOfLevel(level)
      || (ByteOfLevel(lv) == ByteOfLevel(level) && BitOfLevel(lv) >= BitOfLevel(level))
  {
    Decompose(lv);
    if level >= 0 {
      Decompose(level);
    }
  }

  lemma Decompose(lv: int)
    requires lv >= 0
    ensures lv == 8 * (lv / 8) + lv % 8
  {
  }

  /** Whether the bitmap allows the level. */
  predicate Allows(bitmap: Bitmap, lv: int)
    requires |bitmap| == BITMAP_SIZE && IsLevel(lv)
  {
    Test(bitmap[ByteOfLevel(lv)], BitOfLevel(lv))
  }

  /** zlog_rule_output's own test of an event's level against the rule. */
  predicate Outputs(compare: char, level: int, lv: int) {
    match compare
    case '*' => true
    case '.' => lv >= level
    case '=' => lv == level
    case '!' => lv != level
    case _ => false
  }

  predicate IsCompare(compare: char) {
    compare in {'*', '.', '=', '!'}
  }

  /** The bitmap zlog_rule_new gives the rule. */
  function RuleBitmap(compare: char, level: int): (b: Bitmap)
    requires IsCompare(compare) && -1 <= level <= 255
    ensures |b| == BITMAP_SIZE
  {
    match compare
    case '=' => Around(ByteOfLevel(level), 0, Single(BitOfLevel(level)), 0)
    case '!' => Around(ByteOfLevel(level), 0xFF, AllBut(BitOfLevel(level)), 0xFF)
    case '*' => Around(0, 0xFF, 0xFF, 0xFF)
    case _ => Around(ByteOfLevel(level), 0, FromOn(BitOfLevel(level)), 0xFF)
  }

  /** A bitmap with one byte before position k, one at k and one behind it. */
  function Around(k: int, before: Octet, at: Octet, after: Octet): (b: Bitmap)
    ensures |b| == BITMAP_SIZE
    ensures forall i :: 0 <= i < BITMAP_SIZE ==> b[i] == if i < k then before else if i == k then at else after
  {
    seq(BITMAP_SIZE, i requires 0 <= i < BITMAP_SIZE => if i < k then before else if i == k then at else after)
  }

  /** The precomputed bitmap and the comparison made at output time agree on every level. */
  lemma RuleBitmapIsExact(compare: char, level: int, lv: int)
    requires IsCompare(compare) && -1 <= level <= 255 && IsLevel(lv)
    ensures Allows(RuleBitmap(compare, level), lv) <==> Outputs(compare, level, lv)
  {
    hide Test, Single, FromOn, ByteOfLevel, BitOfLevel;
    var k, r, j := ByteOfLevel(level), BitOfLevel(level), BitOfLevel(lv);
    LevelOrder(lv, level);
    SingleTest(r, j);
    FromOnTest(r, j);
    ClearTest(r, j);
    ConstantTest(j);
  }

  // ---------- merging ----------

  function Or(a: Octet, b: Octet): Octet {
    a | b
  }

  /** One bitmap OR-ed into another. */
  function Merged(a: Bitmap, b: Bitmap): (c: Bitmap)
    requires |a| == |b| == BITMAP_SIZE
    ensures |c| == BITMAP_SIZE && forall i :: 0 <= i < BITMAP_SIZE ==> c[i] == Or(a[i], b[i])
  {
    seq(BITMAP_SIZE, i requires 0 <= i < BITMAP_SIZE => Or(a[i], b[i]))
  }

  lemma MergedAllows(a: Bitmap, b: Bitmap, lv: int)
    requires |a| == |b| == BITMAP_SIZE && IsLevel(lv)
    ensures Allows(Merged(a, b), lv) <==> Allows(a, lv) || Allows(b, lv)
  {
    hide Test;
    OrTest(a[ByteOfLevel(lv)], b[ByteOfLevel(lv)], BitOfLevel(lv));
  }

  lemma NothingAllowed(lv: int)
    requires IsLevel(lv)
    ensures !Allows(NoLevels(), lv)
  {
    hide Test;
    ConstantTest(BitOfLevel(lv));
  }
}
