/**
 The Pythagorean numerology engine: the letter table, the reduction of a
 number to a single digit or a master number (11, 22, 33), the Life Path,
 Expression, Soul Urge and Personality numbers, the lucky numbers and lucky
 colour, the trait lookups and the assembled reading.

 Numbers that JavaScript may turn into `NaN` (everything derived from a date,
 which may be an Invalid Date) are modelled as `Num`; numbers derived from a
 name are always integers and are modelled as `nat`.
 */
module Numerology {
  import opened Strings
  import opened Decimal
  import opened Seqs

  /** A JavaScript number as it occurs in a reading: a non-negative integer or `NaN`. */
  datatype Num = NaN | N(n: nat)

  /** A JavaScript `Date`: a time value in milliseconds, or an Invalid Date. */
  datatype Dob = Valid(ms: int) | InvalidDate

  /**
   The local-time calendar fields of a valid date: `getFullYear()`,
   `getMonth() + 1` and `getDate()`. The time zone that maps a time value to
   these fields is a parameter of the operations that need it.
   */
  datatype CivilDate = CivilDate(year: int, month: nat, day: nat)

  /** The Pythagorean letter table: a..i, j..r and s..z each count 1..9. */
  const LetterMap: map<char, nat> := map[
    'a' := 1, 'b' := 2, 'c' := 3, 'd' := 4, 'e' := 5, 'f' := 6, 'g' := 7, 'h' := 8, 'i' := 9,
    'j' := 1, 'k' := 2, 'l' := 3, 'm' := 4, 'n' := 5, 'o' := 6, 'p' := 7, 'q' := 8, 'r' := 9,
    's' := 1, 't' := 2, 'u' := 3, 'v' := 4, 'w' := 5, 'x' := 6, 'y' := 7, 'z' := 8
  ]

  /** The vowels; `y` is not one of them. */
  const Vowels: seq<char> := ['a', 'e', 'i', 'o', 'u']

  /** The table holds exactly the lower-case letters, and letter k (from 0) counts k mod 9 + 1. */
  lemma LetterMapIsPythagorean()
    ensures forall c :: c in LetterMap <==> 'a' <= c <= 'z'
    ensures forall c :: c in LetterMap ==> LetterMap[c] == (c as int - 'a' as int) % 9 + 1
  {
    forall c | c in LetterMap
      ensures LetterMap[c] == (c as int - 'a' as int) % 9 + 1
    {
      if c <= 'i' {
        assert LetterMap[c] == c as int - 'a' as int + 1;
      } else if c <= 'r' {
        assert LetterMap[c] == c as int - 'j' as int + 1;
      } else {
        assert LetterMap[c] == c as int - 's' as int + 1;
      }
    }
  }

  predicate IsMaster(n: nat) {
    n == 11 || n == 22 || n == 33
  }

  /** The values `Reduce` may return. */
  predicate IsReduced(n: nat) {
    n <= 9 || IsMaster(n)
  }

  /** The classical digital root: 0 for 0, otherwise the value in 1..9 congruent to n modulo 9. */
  function DigitalRoot(n: nat): nat {
    if n == 0 then 0 else 1 + (n - 1) % 9
  }

  /**
   `reduceToSingleDigit`: a master number is returned as it is; otherwise the
   number is replaced by its digit sum until it is at most 9 or a master
   number. The source's loop is unfolded into recursion.
   */
  function Reduce(n: nat): (r: nat)
    ensures IsReduced(r)
    ensures IsReduced(n) ==> r == n
    ensures r % 9 == n % 9
    ensures r == 0 <==> n == 0
    ensures !IsMaster(r) ==> r == DigitalRoot(n)
    decreases n
  {
    if IsReduced(n) then
      n
    else
      DigitSumSmaller(n);
      DigitSumCongruent(n);
      var r := Reduce(DigitSum(n));
      DigitalRootCongruent(DigitSum(n), n);
      r
  }

  /** Numbers with the same remainder modulo 9 that are both zero or both positive share a digital root. */
  lemma DigitalRootCongruent(a: nat, b: nat)
    requires a % 9 == b % 9
    requires a == 0 <==> b == 0
    ensures DigitalRoot(a) == DigitalRoot(b)
  {
    if a > 0 {
      PredecessorRemainder(a);
      PredecessorRemainder(b);
    }
  }

  /** The remainder modulo 9 of the number before a positive `x`. */
  lemma PredecessorRemainder(x: nat)
    requires x > 0
    ensures (x - 1) % 9 == if x % 9 == 0 then 8 else x % 9 - 1
  {
    assert x == 9 * (x / 9) + x % 9;
  }

  /** Reducing twice gives the same as reducing once. */
  lemma ReduceIdempotent(n: nat)
    ensures Reduce(Reduce(n)) == Reduce(n)
  {
  }

  /** `letterMap[c]`, with 0 for characters the table does not hold. */
  function LetterValue(c: char): (v: nat)
    ensures v <= 9
    ensures v > 0 <==> 'a' <= c <= 'z'
  {
    LetterMapIsPythagorean();
    if c in LetterMap then LetterMap[c] else 0
  }

  /** Which letters a calculator keeps after lower-casing the name. */
  datatype Selection = AllLetters | VowelsOnly | ConsonantsOnly

  /** The `filter` predicate of each calculator, applied to a lower-cased character. */
  predicate Selected(sel: Selection, c: char) {
    match sel
    case AllLetters => c in LetterMap
    case VowelsOnly => c in Vowels
    case ConsonantsOnly => c in LetterMap && c !in Vowels
  }

  /** `filter(...).reduce((acc, c) => acc + letterMap[c], 0)` over already lower-cased text. */
  function Tally(s: string, sel: Selection): (n: nat)
    ensures n <= 9 * |s|
    decreases |s|
  {
    if |s| == 0 then 0
    else Tally(s[..|s| - 1], sel) + (if Selected(sel, s[|s| - 1]) then LetterValue(s[|s| - 1]) else 0)
  }

  /** The Kelvin sign, whose lower-case form is the letter `k`. */
  const KelvinSign: char := '\U{212A}'

  /** Capital I with dot above, whose lower-case form is `i` followed by a combining dot above (U+0307). */
  const CapitalIWithDot: char := '\U{0130}'

  /**
   The characters whose lower-case form holds a letter a..z: the ASCII
   letters of either case, the Kelvin sign and capital I with dot above.
   Under the full Unicode case mapping that `toLowerCase` applies, no other
   character lower-cases to anything holding a..z.
   */
  predicate IsNameLetter(c: char) {
    'a' <= c <= 'z' || 'A' <= c <= 'Z' || c == KelvinSign || c == CapitalIWithDot
  }

  /**
   `toLowerCase` of one character, as far as the letter table can tell:
   ASCII upper case goes to lower case, the Kelvin sign to `k`, capital I
   with dot above to `i` and U+0307. Every other character is kept: its
   real lower-case form differs from it only outside a..z, where no
   calculator counts anything.
   */
  function LowerChar(c: char): (r: string)
    ensures |r| >= 1
    ensures 'a' <= r[0] <= 'z' <==> IsNameLetter(c)
    ensures forall i :: 1 <= i < |r| ==> !('a' <= r[i] <= 'z')
  {
    if c == KelvinSign then "k"
    else if c == CapitalIWithDot then "i\U{0307}"
    else [ToLower(c)]
  }

  /** `name.toLowerCase()`, character by character. */
  function LowerName(name: string): string
    decreases |name|
  {
    if |name| == 0 then "" else LowerName(name[..|name| - 1]) + LowerChar(name[|name| - 1])
  }

  /** The raw (unreduced) letter sum of a name: lower-case it, filter, add the letter values. */
  function RawSum(name: string, sel: Selection): nat {
    Tally(LowerName(name), sel)
  }

  /** Without the two special characters, lower-casing a name is plain ASCII lower-casing. */
  lemma {:induction false} LowerNameOfAscii(name: string)
    requires forall i :: 0 <= i < |name| ==> name[i] != KelvinSign && name[i] != CapitalIWithDot
    ensures LowerName(name) == Lower(name)
    decreases |name|
  {
    if |name| > 0 {
      var p := name[..|name| - 1];
      LowerNameOfAscii(p);
      assert Lower(name) == Lower(p) + [ToLower(name[|name| - 1])];
    }
  }

  /** The sum over two texts put together is the sum of their sums. */
  lemma {:induction false} TallyAppend(a: string, b: string, sel: Selection)
    ensures Tally(a + b, sel) == Tally(a, sel) + Tally(b, sel)
    decreases |b|
  {
    if |b| == 0 {
      assert a + b == a;
    } else {
      var b' := b[..|b| - 1];
      assert (a + b)[..|a + b| - 1] == a + b';
      TallyAppend(a, b', sel);
    }
  }

  /** Each character of a name adds the sum of its lower-case form. */
  lemma RawSumStep(name: string, sel: Selection)
    requires |name| > 0
    ensures RawSum(name, sel) == RawSum(name[..|name| - 1], sel) + Tally(LowerChar(name[|name| - 1]), sel)
  {
    TallyAppend(LowerName(name[..|name| - 1]), LowerChar(name[|name| - 1]), sel);
  }

  /** A character adds to the letter sum exactly when its lower-case form starts with a letter a..z. */
  lemma LowerCharCounts(c: char)
    ensures Tally(LowerChar(c), AllLetters) > 0 <==> IsNameLetter(c)
  {
    var r := LowerChar(c);
    LetterMapIsPythagorean();
    if |r| == 2 {
      assert r[..1][..0] == [];
      assert Tally(r[..1], AllLetters) == LetterValue(r[0]);
    }
  }

  /** Every counted letter is a vowel or a consonant and never both, so the sums split. */
  lemma {:induction false} TallyPartition(s: string)
    ensures Tally(s, AllLetters) == Tally(s, VowelsOnly) + Tally(s, ConsonantsOnly)
    decreases |s|
  {
    if |s| > 0 {
      TallyPartition(s[..|s| - 1]);
      var c := s[|s| - 1];
      if c in Vowels {
        assert c in LetterMap;
      }
    }
  }

  /**
   The letter sum of a name is 0 exactly when no character of the name
   lower-cases to a letter a..z.
   */
  lemma {:induction false} RawSumZeroIffNoLetters(name: string)
    ensures RawSum(name, AllLetters) == 0 <==> forall i :: 0 <= i < |name| ==> !IsNameLetter(name[i])
    decreases |name|
  {
    if |name| > 0 {
      var p := name[..|name| - 1];
      RawSumZeroIffNoLetters(p);
      RawSumStep(name, AllLetters);
      LowerCharCounts(name[|name| - 1]);
      assert forall i :: 0 <= i < |p| ==> p[i] == name[i];
    }
  }

  /** Two names whose characters lower-case alike have the same lower-case form. */
  lemma {:induction false} LowerNameAgrees(a: string, b: string)
    requires |a| == |b|
    requires forall i :: 0 <= i < |a| ==> LowerChar(a[i]) == LowerChar(b[i])
    ensures LowerName(a) == LowerName(b)
    decreases |a|
  {
    if |a| > 0 {
      LowerNameAgrees(a[..|a| - 1], b[..|b| - 1]);
      assert LowerChar(a[|a| - 1]) == LowerChar(b[|b| - 1]);
    }
  }

  /** Upper- and lower-case spellings of a name give the same sums. */
  lemma CaseInsensitive(a: string, b: string, sel: Selection)
    requires |a| == |b|
    requires forall i :: 0 <= i < |a| ==> LowerChar(a[i]) == LowerChar(b[i])
    ensures RawSum(a, sel) == RawSum(b, sel)
  {
    LowerNameAgrees(a, b);
  }

  /** `calculateExpressionNumber`: all letters of the name. */
  function ExpressionNumber(name: string): (r: nat)
    ensures IsReduced(r)
    ensures r % 9 == RawSum(name, AllLetters) % 9
    ensures r == 0 <==> forall i :: 0 <= i < |name| ==> !IsNameLetter(name[i])
  {
    RawSumZeroIffNoLetters(name);
    Reduce(RawSum(name, AllLetters))
  }

  /** The Kelvin sign counts as the letter k, which is worth 2. */
  lemma KelvinSignCounts(name: string)
    requires name == [KelvinSign]
    ensures ExpressionNumber(name) == 2
  {
    RawSumStep(name, AllLetters);
    assert name[..0] == [];
  }

  /** `calculateSoulUrgeNumber`: the vowels a, e, i, o, u of the name. */
  function SoulUrgeNumber(name: string): (r: nat)
    ensures IsReduced(r)
    ensures r % 9 == RawSum(name, VowelsOnly) % 9
  {
    Reduce(RawSum(name, VowelsOnly))
  }

  /** `calculatePersonalityNumber`: the letters of the name that are not vowels. */
  function PersonalityNumber(name: string): (r: nat)
    ensures IsReduced(r)
    ensures r % 9 == RawSum(name, ConsonantsOnly) % 9
  {
    Reduce(RawSum(name, ConsonantsOnly))
  }

  /** The Expression number agrees with Soul Urge plus Personality modulo 9. */
  lemma ExpressionSplits(name: string)
    ensures RawSum(name, AllLetters) == RawSum(name, VowelsOnly) + RawSum(name, ConsonantsOnly)
    ensures ExpressionNumber(name) % 9 == (SoulUrgeNumber(name) + PersonalityNumber(name)) % 9
  {
    TallyPartition(LowerName(name));
    SplitCongruent(ExpressionNumber(name), RawSum(name, VowelsOnly), RawSum(name, ConsonantsOnly),
      SoulUrgeNumber(name), PersonalityNumber(name));
  }

  lemma SplitCongruent(e: nat, v: nat, c: nat, su: nat, p: nat)
    requires e % 9 == (v + c) % 9 && su % 9 == v % 9 && p % 9 == c % 9
    ensures e % 9 == (su + p) % 9
  {
    SumCongruent(su, p, v, c);
  }

  /**
   The Life Path of a calendar date: the digit sums of the texts of day,
   month and year, added and reduced. A negative year's text starts with
   `-`, whose `parseInt` is `NaN`, so the whole sum is `NaN`.
   */
  function LifePathOfDate(d: CivilDate): (r: Num)
    ensures r.N? <==> d.year >= 0
    ensures r.N? ==> IsReduced(r.n) && r.n % 9 == (d.day + d.month + d.year) % 9
  {
    if d.year < 0 then
      NaN
    else
      var year: nat := d.year;
      DigitSumCongruent(d.day);
      DigitSumCongruent(d.month);
      DigitSumCongruent(year);
      SumCongruent(DigitSum(d.day), DigitSum(d.month), d.day, d.month);
      SumCongruent(DigitSum(d.day) + DigitSum(d.month), DigitSum(year), d.day + d.month, year);
      N(Reduce(DigitSum(d.day) + DigitSum(d.month) + DigitSum(year)))
  }

  /** `calculateLifePathNumber`: `NaN` for an Invalid Date. */
  function LifePathNumber(dob: Dob, calendar: int -> CivilDate): (r: Num)
    ensures dob.InvalidDate? ==> r == NaN
    ensures r.N? ==> IsReduced(r.n)
    ensures dob.Valid? ==> r == LifePathOfDate(calendar(dob.ms))
  {
    match dob
    case InvalidDate => NaN
    case Valid(ms) => LifePathOfDate(calendar(ms))
  }

  /** The four values `getLuckyNumbers` starts from: lp, r(2 lp), r(lp + 3), r(3 lp). */
  function LuckyCandidates(lp: Num): (c: seq<Num>)
    ensures |c| == 4 && c[0] == lp
    ensures lp == NaN ==> forall i :: 0 <= i < 4 ==> c[i] == NaN
    ensures lp.N? ==> forall i :: 1 <= i < 4 ==> c[i].N? && IsReduced(c[i].n)
    ensures lp.N? ==> c[1].n % 9 == 2 * lp.n % 9 && c[2].n % 9 == (lp.n + 3) % 9 && c[3].n % 9 == 3 * lp.n % 9
  {
    match lp
    case NaN => [NaN, NaN, NaN, NaN]
    case N(n) => [N(n), N(Reduce(2 * n)), N(Reduce(n + 3)), N(Reduce(3 * n))]
  }

  /**
   `getLuckyNumbers`: the distinct candidates in order of first occurrence
   (a JavaScript `Set` treats `NaN` as equal to itself), then `slice(0, 4)`.
   */
  function LuckyNumbers(lp: Num): (r: seq<Num>)
    ensures 1 <= |r| <= 4
    ensures r[0] == lp
    ensures NoDuplicates(r)
    ensures forall x :: x in r <==> x in LuckyCandidates(lp)
    ensures forall i :: 1 <= i < |r| ==> r[i].N? && IsReduced(r[i].n)
    ensures lp == NaN ==> r == [NaN]
  {
    var d := Distinct(LuckyCandidates(lp));
    DistinctCandidates(lp);
    var r := d[..if |d| < 4 then |d| else 4];
    assert r == d;
    r
  }

  /** The facts about the distinct candidates that `LuckyNumbers` passes on. */
  lemma DistinctCandidates(lp: Num)
    ensures var d := Distinct(LuckyCandidates(lp));
      1 <= |d| <= 4 && d[0] == lp
      && (forall i :: 1 <= i < |d| ==> d[i].N? && IsReduced(d[i].n))
      && (lp == NaN ==> d == [NaN])
  {
    var c := LuckyCandidates(lp);
    var d := Distinct(c);
    if lp == NaN {
      DistinctOfRepeated(c, NaN);
    } else {
      CandidatesAfterFirst(lp);
      assert forall i :: 1 <= i < |d| ==> d[i] != d[0] && d[i] in c;
    }
  }

  lemma CandidatesAfterFirst(lp: Num)
    ensures forall x :: x in LuckyCandidates(lp) && x != lp ==> x.N? && IsReduced(x.n)
  {
  }

  /** Dropping duplicates from a sequence of one repeated value leaves that value once. */
  lemma {:induction false} DistinctOfRepeated<T(!new)>(s: seq<T>, x: T)
    requires |s| > 0
    requires forall i :: 0 <= i < |s| ==> s[i] == x
    ensures Distinct(s) == [x]
    decreases |s|
  {
    if |s| > 1 {
      DistinctOfRepeated(s[..|s| - 1], x);
    }
  }

  /** The lucky numbers keep the candidates in the order in which they first occur. */
  lemma LuckyNumbersOrder(lp: Num)
    ensures forall i, j :: 0 <= i < j < |LuckyNumbers(lp)| ==>
      FirstIndex(LuckyCandidates(lp), LuckyNumbers(lp)[i]) < FirstIndex(LuckyCandidates(lp), LuckyNumbers(lp)[j])
  {
    DistinctFirstOccurrenceOrder(LuckyCandidates(lp));
    if lp == NaN {
      DistinctOfRepeated(LuckyCandidates(lp), NaN);
    }
    assert LuckyNumbers(lp) == Distinct(LuckyCandidates(lp));
  }

  /** The keys every lookup table of the engine holds: 1..9 and the master numbers. */
  predicate HasEntry(n: nat) {
    1 <= n <= 9 || IsMaster(n)
  }

  /**
   The key `table[k] || table[9]` ends up reading: `k` itself when the table
   holds it, and 9 for anything else (0, 10, `NaN`, ...).
   */
  function TableKey(k: Num): (key: nat)
    ensures HasEntry(key)
    ensures k.N? && HasEntry(k.n) ==> key == k.n
    ensures !(k.N? && HasEntry(k.n)) ==> key == 9
  {
    if k.N? && HasEntry(k.n) then k.n else 9
  }

  /** The entry a reduced number shows: its own, or the entry for 9 when it is 0. */
  function ShownKey(n: nat): nat {
    if n == 0 then 9 else n
  }

  lemma ShownEntry(k: Num)
    ensures k.N? && IsReduced(k.n) ==> TableKey(k) == ShownKey(k.n)
  {
  }

  datatype Color = Color(name: string, hex: string)

  const ColorTable: map<nat, Color> := map[
    1 := Color("Red", "#DC2626"),
    2 := Color("Orange", "#EA580C"),
    3 := Color("Yellow", "#CA8A04"),
    4 := Color("Green", "#16A34A"),
    5 := Color("Blue", "#2563EB"),
    6 := Color("Indigo", "#4F46E5"),
    7 := Color("Violet", "#7C3AED"),
    8 := Color("Pink", "#DB2777"),
    9 := Color("Gold", "#D97706"),
    11 := Color("Silver", "#6B7280"),
    22 := Color("White", "#F3F4F6"),
    33 := Color("Sky Blue", "#0EA5E9")
  ]

  lemma ColorTableKeys()
    ensures forall n :: n in ColorTable <==> HasEntry(n)
  {
  }

  /** `getLuckyColor`: the colour of a known key, Gold (the entry for 9) for any other. */
  function LuckyColor(k: Num): (c: Color)
    ensures k.N? && HasEntry(k.n) ==> k.n in ColorTable && c == ColorTable[k.n]
    ensures !(k.N? && HasEntry(k.n)) ==> c == Color("Gold", "#D97706")
  {
    ColorTableKeys();
    ColorTable[TableKey(k)]
  }

  /** The four trait tables of the engine. */
  datatype TraitTable = LifePathTraits | ExpressionTraits | SoulUrgeTraits | PersonalityTraits

  /** A trait entry, standing for the prose the source stores under `key` in `table`. */
  datatype Trait = Trait(table: TraitTable, key: nat)

  /** `getLifePathTraits`, `getExpressionTraits`, ...: the entry for the key, or for 9. */
  function Traits(table: TraitTable, k: Num): (t: Trait)
    ensures t.table == table && HasEntry(t.key)
    ensures k.N? && HasEntry(k.n) ==> t.key == k.n
    ensures !(k.N? && HasEntry(k.n)) ==> t.key == 9
  {
    Trait(table, TableKey(k))
  }

  datatype Reading = Reading(
    name: string,
    dob: Dob,
    lifePath: Num,
    lifePathTraits: Trait,
    expression: nat,
    expressionTraits: Trait,
    soulUrge: nat,
    soulUrgeTraits: Trait,
    personality: nat,
    personalityTraits: Trait,
    luckyNumbers: seq<Num>,
    luckyColor: Color
  )

  /** `generateReading`: every number from its calculator, lucky values from the Life Path. */
  function GenerateReading(name: string, dob: Dob, calendar: int -> CivilDate): (r: Reading)
    ensures r.name == name && r.dob == dob
    ensures r.lifePath == LifePathNumber(dob, calendar)
    ensures r.expression == ExpressionNumber(name)
    ensures r.soulUrge == SoulUrgeNumber(name)
    ensures r.personality == PersonalityNumber(name)
    ensures r.luckyNumbers == LuckyNumbers(r.lifePath)
    ensures r.lifePath == NaN <==> dob.InvalidDate? || calendar(dob.ms).year < 0
    ensures r.lifePath.N? ==> IsReduced(r.lifePath.n)
    ensures IsReduced(r.expression) && IsReduced(r.soulUrge) && IsReduced(r.personality)
    ensures r.expression == 0 <==> forall i :: 0 <= i < |name| ==> !IsNameLetter(name[i])
    ensures r.expressionTraits == Trait(ExpressionTraits, ShownKey(r.expression))
    ensures r.soulUrgeTraits == Trait(SoulUrgeTraits, ShownKey(r.soulUrge))
    ensures r.personalityTraits == Trait(PersonalityTraits, ShownKey(r.personality))
    ensures r.lifePathTraits == Trait(LifePathTraits, if r.lifePath.N? then ShownKey(r.lifePath.n) else 9)
    ensures 1 <= |r.luckyNumbers| <= 4 && r.luckyNumbers[0] == r.lifePath
    ensures r.luckyColor == LuckyColor(r.lifePath)
  {
    var lifePath := LifePathNumber(dob, calendar);
    var expression := ExpressionNumber(name);
    var soulUrge := SoulUrgeNumber(name);
    var personality := PersonalityNumber(name);
    ShownEntry(lifePath);
    ShownEntry(N(expression));
    ShownEntry(N(soulUrge));
    ShownEntry(N(personality));
    Reading(
      name,
      dob,
      lifePath,
      Traits(LifePathTraits, lifePath),
      expression,
      Traits(ExpressionTraits, N(expression)),
      soulUrge,
      Traits(SoulUrgeTraits, N(soulUrge)),
      personality,
      Traits(PersonalityTraits, N(personality)),
      LuckyNumbers(lifePath),
      LuckyColor(lifePath)
    )
  }

  /** In every reading the Expression number agrees with Soul Urge plus Personality modulo 9. */
  lemma ReadingNumbersAgree(name: string, dob: Dob, calendar: int -> CivilDate)
    ensures var r := GenerateReading(name, dob, calendar);
      r.expression % 9 == (r.soulUrge + r.personality) % 9
  {
    NumbersAgree(GenerateReading(name, dob, calendar));
  }

  /** A reading whose name numbers come from their calculators has them agree modulo 9. */
  lemma NumbersAgree(r: Reading)
    requires r.expression == ExpressionNumber(r.name)
    requires r.soulUrge == SoulUrgeNumber(r.name) && r.personality == PersonalityNumber(r.name)
    ensures r.expression % 9 == (r.soulUrge + r.personality) % 9
  {
    ExpressionSplits(r.name);
  }
}
