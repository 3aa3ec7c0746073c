/** Plural operands and plural rules of the i18n runtime.

    The operands follow the section "Plural Operand Meanings" of Unicode
    Technical Standard #35, Part 3 (Numbers), restricted to integers: the
    runtime never sees a fraction, so every fraction operand is zero. */
module Plural {

  /** The six CLDR plural categories, one value set shared by every locale. */
  datatype Category = Zero | One | Two | Few | Many | Other

  /** The signed 32-bit count a caller asks to pluralize. */
  type Int32 = x: int | -0x8000_0000 <= x < 0x8000_0000

  /** The unsigned 32-bit type of every operand. */
  type Uint32 = x: int | 0 <= x < 0x1_0000_0000

  /** Mathematical magnitude, used to state the rules' contracts. */
  function Abs(x: int): nat {
    if x < 0 then -x else x
  }

  /** Operand n, the absolute value of the count. Negating the least int32
      is undefined in C; the model takes 2^31, which is what a two's
      complement wrap followed by the unsigned cast produces. */
  function OpN(val: Int32): (n: Uint32)
    ensures n == val as int || n == -(val as int)
  {
    if val < 0 then -(val as int) else val
  }

  /** Operand i, the integer digits of n: n itself for integral input. */
  function OpI(n: Uint32): (i: Uint32)
    ensures i == n
  {
    n
  }

  /** Operand v, the number of visible fraction digits: none for an integer. */
  function OpV(n: Uint32): (v: Uint32)
    ensures v == 0
  {
    0
  }

  /** Operand w, visible fraction digits without trailing zeros: none. */
  function OpW(n: Uint32): (w: Uint32)
    ensures w == 0
  {
    0
  }

  /** Operand f, the visible fraction digits as a number: zero. */
  function OpF(n: Uint32): (f: Uint32)
    ensures f == 0
  {
    0
  }

  /** Operand t, the fraction digits without trailing zeros: zero. */
  function OpT(n: Uint32): (t: Uint32)
    ensures t == 0
  {
    0
  }

  datatype Operands = Operands(n: Uint32, i: Uint32, v: Uint32, w: Uint32, f: Uint32, t: Uint32)

  /** All operands of a count, each computed from n as the rules do. */
  function OperandsOf(num: Int32): Operands {
    var n := OpN(num);
    Operands(n, OpI(n), OpV(n), OpW(n), OpF(n), OpT(n))
  }

  /** For an integer count, n and i are its magnitude and every fraction
      operand is zero. */
  lemma IntegerOperands(num: Int32)
    ensures OperandsOf(num).n == Abs(num)
    ensures OperandsOf(num).i == OperandsOf(num).n
    ensures OperandsOf(num) == Operands(Abs(num), Abs(num), 0, 0, 0, 0)
  {
  }

  /** The operands, and so every rule below, cannot see the count's sign. */
  lemma OperandsIgnoreSign(num: Int32)
    requires num != -0x8000_0000
    ensures OperandsOf(-num) == OperandsOf(num)
  {
  }

  /** English (en-GB): "one" for i = 1 with no visible fraction, else "other". */
  function EnGbPluralFn(num: Int32): (c: Category)
    ensures c == One <==> Abs(num) == 1
    ensures c == One || c == Other
  {
    var o := OperandsOf(num);
    if o.i == 1 && o.v == 0 then One else Other
  }

  /** Russian (ru-RU): the East Slavic one/few/many split on the last one
      and last two digits of i; "other" is left for fractions, which an
      integer count never has. */
  function RuRuPluralFn(num: Int32): (c: Category)
    ensures c == One <==> Abs(num) % 10 == 1 && Abs(num) % 100 != 11
    ensures c == Few <==> 2 <= Abs(num) % 10 <= 4 && !(12 <= Abs(num) % 100 <= 14)
    ensures c == One || c == Few || c == Many
  {
    var o := OperandsOf(num);
    var i10 := o.i % 10;
    var i100 := o.i % 100;
    if o.v == 0 && i10 == 1 && i100 != 11 then One
    else if o.v == 0 && 2 <= i10 <= 4 && !(12 <= i100 <= 14) then Few
    else if (o.v == 0 && i10 == 0) || (o.v == 0 && 5 <= i10 <= 9) || (o.v == 0 && 11 <= i100 <= 14) then Many
    else Other
  }

  /** German (de-DE): the same one/other rule as English. */
  function DeDePluralFn(num: Int32): (c: Category)
    ensures c == One <==> Abs(num) == 1
    ensures c == One || c == Other
  {
    var o := OperandsOf(num);
    if o.i == 1 && o.v == 0 then One else Other
  }

  /** The rule function a locale carries, named by its locale. */
  datatype PluralFn = EnGb | RuRu | DeDe

  /** Calls a locale's rule function on a count: the category that
      locale's grammar gives it. */
  function Apply(fn: PluralFn, num: Int32): (c: Category)
    ensures c != Zero && c != Two
    ensures fn != RuRu ==> (c == One <==> Abs(num) == 1) && (c == One || c == Other)
    ensures fn == RuRu ==> c != Other && (c == One <==> Abs(num) % 10 == 1 && Abs(num) % 100 != 11)
    ensures fn == RuRu ==> (c == Few <==> 2 <= Abs(num) % 10 <= 4 && !(12 <= Abs(num) % 100 <= 14))
  {
    match fn
    case EnGb => EnGbPluralFn(num)
    case RuRu => RuRuPluralFn(num)
    case DeDe => DeDePluralFn(num)
  }

  /** No rule in the runtime ever answers "zero" or "two", and only the
      Russian rule answers "few" or "many". */
  lemma RulesRange(fn: PluralFn, num: Int32)
    ensures Apply(fn, num) != Zero && Apply(fn, num) != Two
    ensures fn == RuRu ==> Apply(fn, num) != Other
    ensures fn != RuRu ==> Apply(fn, num) == One || Apply(fn, num) == Other
  {
  }

  /** The sign of the count never changes its category. */
  lemma SignIrrelevant(fn: PluralFn, num: Int32)
    requires num != -0x8000_0000
    ensures Apply(fn, -num) == Apply(fn, num)
  {
  }

  /** The Russian category depends only on the last two decimal digits. */
  lemma RuRuLastTwoDigits(num: Int32)
    ensures RuRuPluralFn(num) == RuRuPluralFn(Abs(num) % 100)
  {
    var i := Abs(num);
    assert (i % 100) % 10 == i % 10 by {
      assert i == 10 * (10 * (i / 100)) + i % 100;
    }
    assert Abs(i % 100) == i % 100;
  }

  /** Sample counts for the Russian rule. */
  lemma RuRuExamples()
    ensures RuRuPluralFn(1) == One && RuRuPluralFn(21) == One && RuRuPluralFn(101) == One
    ensures RuRuPluralFn(2) == Few && RuRuPluralFn(4) == Few && RuRuPluralFn(22) == Few
    ensures RuRuPluralFn(5) == Many && RuRuPluralFn(11) == Many && RuRuPluralFn(0) == Many
    ensures RuRuPluralFn(12) == Many && RuRuPluralFn(111) == Many && RuRuPluralFn(-21) == One
  {
  }
}
