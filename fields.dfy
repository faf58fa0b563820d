/**
 * Row normalisation (app/lib/gameData.js): `normalizeCategory`, which reads
 * the category under one of three header spellings, and `toPoints`, which
 * reads the `Points` column as a number and keeps it only if it is finite.
 */
module Fields {
  import opened Wrappers
  import opened Strings
  import opened Csv

  /** The value of a row under `key`, where a missing key reads as the empty string. */
  function Field(r: Row, key: string): string
  {
    if key in r then r[key] else ""
  }

  // ---------------------------------------------------------------------------
  // category

  /** The header spellings of the category, in the order the `||` chain tries them. */
  const CategoryAliases: seq<string> := ["Catagory", "Category", "category"]

  /** The first non-empty value under the keys, tried in order, untrimmed (app/lib/gameData.js:25). */
  function FirstFilled(r: Row, keys: seq<string>): string
  {
    if keys == [] then ""
    else if Field(r, keys[0]) != "" then Field(r, keys[0])
    else FirstFilled(r, keys[1..])
  }

  /** The category of a row (app/lib/gameData.js:23-26): the first filled spelling, trimmed. */
  function NormalizeCategory(r: Row): string
  {
    Trim(FirstFilled(r, CategoryAliases))
  }

  /** The `||` chain yields the value under the first key whose value is non-empty, and "" when there is none. */
  lemma {:induction false} FirstFilledIsFirst(r: Row, keys: seq<string>)
    ensures forall i ::
      (0 <= i < |keys| && Field(r, keys[i]) != "" && (forall j :: 0 <= j < i ==> Field(r, keys[j]) == ""))
      ==> FirstFilled(r, keys) == Field(r, keys[i])
    ensures (forall j :: 0 <= j < |keys| ==> Field(r, keys[j]) == "") ==> FirstFilled(r, keys) == ""
    decreases |keys|
  {
    if keys != [] {
      FirstFilledIsFirst(r, keys[1..]);
      forall i | 0 < i < |keys| && Field(r, keys[i]) != "" && (forall j :: 0 <= j < i ==> Field(r, keys[j]) == "")
        ensures FirstFilled(r, keys) == Field(r, keys[i])
      {
        assert Field(r, keys[0]) == "";
        assert keys[1..][i - 1] == keys[i];
        assert forall j :: 0 <= j < i - 1 ==> keys[1..][j] == keys[j + 1];
      }
    }
  }

  /**
   * The category is the trimmed value of the first of `Catagory`, `Category`,
   * `category` whose value is non-empty, and "" when none is; the misspelled
   * `Catagory` comes first.
   */
  lemma NormalizeCategoryPriority(r: Row)
    ensures Field(r, "Catagory") != "" ==> NormalizeCategory(r) == Trim(r["Catagory"])
    ensures Field(r, "Catagory") == "" && Field(r, "Category") != "" ==>
      NormalizeCategory(r) == Trim(r["Category"])
    ensures Field(r, "Catagory") == "" && Field(r, "Category") == "" && Field(r, "category") != "" ==>
      NormalizeCategory(r) == Trim(r["category"])
    ensures Field(r, "Catagory") == "" && Field(r, "Category") == "" && Field(r, "category") == "" ==>
      NormalizeCategory(r) == ""
  {
    FirstFilledIsFirst(r, CategoryAliases);
    assert CategoryAliases[0] == "Catagory" && CategoryAliases[1] == "Category" && CategoryAliases[2] == "category";
  }

  /** The three spellings are interchangeable when only one of them is present. */
  lemma CategoryAliasesAgree(v: string)
    ensures NormalizeCategory(map["Catagory" := v]) == Trim(v)
    ensures NormalizeCategory(map["Category" := v]) == Trim(v)
    ensures NormalizeCategory(map["category" := v]) == Trim(v)
  {
    assert "Catagory"[3] != "Category"[3];
    assert "Catagory"[0] != "category"[0];
    assert "Category"[0] != "category"[0];
    NormalizeCategoryPriority(map["Catagory" := v]);
    NormalizeCategoryPriority(map["Category" := v]);
    NormalizeCategoryPriority(map["category" := v]);
  }

  /**
   * The chain tests the raw value and trims afterwards, so a `Catagory` made
   * of white space alone wins over a real `Category` and leaves the row
   * without a category. Rows from the CSV reader are already trimmed, so it
   * does not arise for them.
   */
  lemma BlankAliasShadows(r: Row)
    requires Field(r, "Catagory") != "" && AllWs(Field(r, "Catagory"))
    ensures NormalizeCategory(r) == ""
  {
    NormalizeCategoryPriority(r);
    TrimEmpty(r["Catagory"]);
  }

  // ---------------------------------------------------------------------------
  // points

  predicate IsDigits(s: string)
  {
    |s| > 0 && forall i :: 0 <= i < |s| ==> IsDigit(s[i])
  }

  /** An optional `+` or `-` and then decimal digits. */
  predicate IsSignedDigits(t: string)
  {
    IsDigits(t) || (|t| > 0 && (t[0] == '-' || t[0] == '+') && IsDigits(t[1..]))
  }

  /** The value of a run of decimal digits. */
  function DigitsValue(s: string): nat
    requires forall i :: 0 <= i < |s| ==> IsDigit(s[i])
    decreases |s|
  {
    if s == [] then 0
    else
      assert IsDigit(s[|s| - 1]);
      DigitsValue(s[..|s| - 1]) * 10 + (s[|s| - 1] as int - '0' as int)
  }

  /**
   * The least magnitude that a decimal numeral rounds to an infinity when
   * read as a double, 2^1024 - 2^970: one half unit above the largest
   * finite double (section 6.1.6.1 of ECMA-262).
   */
  const InfiniteFrom: nat := 0xFFFFFFFFFFFFFC00000000000000000000000000000000000000000000000000000000000000000000000000000000000000000000000000000000000000000000000000000000000000000000000000000000000000000000000000000000000000000000000000000000000000000000000000000000000000000000000000

  /** Two to the power `n`. */
  function Pow2(n: nat): (r: nat)
    ensures r >= 1
  {
    if n == 0 then 1 else 2 * Pow2(n - 1)
  }

  /** Exponents add when powers of two multiply. */
  lemma {:induction false} PowAdd(a: nat, b: nat)
    ensures Pow2(a + b) == Pow2(a) * Pow2(b)
    decreases a
  {
    if a > 0 {
      PowAdd(a - 1, b);
    }
  }

  /** One doubling step of the powers computed below. */
  lemma PowStep(a: nat, b: nat, x: nat, y: nat)
    requires Pow2(a) == x && Pow2(b) == y
    ensures Pow2(a + b) == x * y
  {
    PowAdd(a, b);
  }

  /** The powers of two the double format is built from. */
  lemma Pow2Low()
    ensures Pow2(8) == 0x100
    ensures Pow2(53) == 0x20000000000000
    ensures Pow2(64) == 0x10000000000000000
  {
    assert Pow2(5) == 32 && Pow2(8) == 0x100;
    PowStep(8, 8, 0x100, 0x100);
    PowStep(16, 16, 0x10000, 0x10000);
    PowStep(32, 16, 0x100000000, 0x10000);
    PowStep(48, 5, 0x1000000000000, 0x20);
    PowStep(32, 32, 0x100000000, 0x100000000);
  }

  /** The powers of two at the top of the double range. */
  lemma Pow2High()
    ensures Pow2(970) == 0x400000000000000000000000000000000000000000000000000000000000000000000000000000000000000000000000000000000000000000000000000000000000000000000000000000000000000000000000000000000000000000000000000000000000000000000000000000000000000000000000000
    ensures Pow2(971) == 0x800000000000000000000000000000000000000000000000000000000000000000000000000000000000000000000000000000000000000000000000000000000000000000000000000000000000000000000000000000000000000000000000000000000000000000000000000000000000000000000000000
    ensures Pow2(1024) == 0x10000000000000000000000000000000000000000000000000000000000000000000000000000000000000000000000000000000000000000000000000000000000000000000000000000000000000000000000000000000000000000000000000000000000000000000000000000000000000000000000000000000000000000
  {
    Pow2Low();
    assert Pow2(2) == 4 && Pow2(3) == 8;
    PowStep(64, 64, 0x10000000000000000, 0x10000000000000000);
    PowStep(128, 128, 0x100000000000000000000000000000000, 0x100000000000000000000000000000000);
    PowStep(256, 256, 0x10000000000000000000000000000000000000000000000000000000000000000, 0x10000000000000000000000000000000000000000000000000000000000000000);
    PowStep(512, 512, 0x100000000000000000000000000000000000000000000000000000000000000000000000000000000000000000000000000000000000000000000000000000000, 0x100000000000000000000000000000000000000000000000000000000000000000000000000000000000000000000000000000000000000000000000000000000);
    PowStep(512, 256, 0x100000000000000000000000000000000000000000000000000000000000000000000000000000000000000000000000000000000000000000000000000000000, 0x10000000000000000000000000000000000000000000000000000000000000000);
    PowStep(768, 128, 0x1000000000000000000000000000000000000000000000000000000000000000000000000000000000000000000000000000000000000000000000000000000000000000000000000000000000000000000000000000000000000000000000000, 0x100000000000000000000000000000000);
    PowStep(896, 64, 0x100000000000000000000000000000000000000000000000000000000000000000000000000000000000000000000000000000000000000000000000000000000000000000000000000000000000000000000000000000000000000000000000000000000000000000000000000000000, 0x10000000000000000);
    PowStep(960, 8, 0x1000000000000000000000000000000000000000000000000000000000000000000000000000000000000000000000000000000000000000000000000000000000000000000000000000000000000000000000000000000000000000000000000000000000000000000000000000000000000000000000000, 0x100);
    PowStep(968, 2, 0x100000000000000000000000000000000000000000000000000000000000000000000000000000000000000000000000000000000000000000000000000000000000000000000000000000000000000000000000000000000000000000000000000000000000000000000000000000000000000000000000000, 0x4);
    PowStep(968, 3, 0x100000000000000000000000000000000000000000000000000000000000000000000000000000000000000000000000000000000000000000000000000000000000000000000000000000000000000000000000000000000000000000000000000000000000000000000000000000000000000000000000000, 0x8);
  }

  /**
   * The overflow bound is 2^1024 - 2^970, halfway between the largest finite
   * double, (2^53 - 1) * 2^971, and 2^1024: a numeral at least this large
   * rounds to an infinity under round-half-to-even, one below it to a finite
   * double.
   */
  lemma InfiniteFromIsMidpoint()
    ensures InfiniteFrom == Pow2(1024) - Pow2(970)
    ensures 2 * InfiniteFrom == (Pow2(53) - 1) * Pow2(971) + Pow2(1024)
  {
    Pow2Low();
    Pow2High();
  }

  /** A value read from a numeral, kept only if it stays finite as a double. */
  function Finite(v: int): Option<int>
  {
    if -(InfiniteFrom as int) < v < InfiniteFrom then Some(v) else None
  }

  /**
   * `Number` of a points text, kept only when finite, for decimal integers:
   * white space around the number is ignored, a blank string is 0, an
   * optional sign may lead the digits, a magnitude too large for a double
   * is infinite, and anything else is not a finite number.
   */
  function ParseNumber(s: string): Option<int>
  {
    var t := Trim(s);
    if t == [] then Some(0)
    else if IsDigits(t) then Finite(DigitsValue(t))
    else if (t[0] == '-' || t[0] == '+') && IsDigits(t[1..]) then
      var magnitude: int := DigitsValue(t[1..]);
      Finite(if t[0] == '-' then -magnitude else magnitude)
    else None
  }

  /** The points of a row (app/lib/gameData.js:28-31); `None` stands for `NaN`, which a missing `Points` column gives too. */
  function ToPoints(r: Row): Option<int>
  {
    if "Points" in r then ParseNumber(r["Points"]) else None
  }

  /** Reading digits back gives the number they were written from. */
  lemma {:induction false} DigitsValueDecimal(n: nat)
    ensures DigitsValue(DecimalString(n)) == n
    decreases n
  {
    var s := DecimalString(n);
    if n >= 10 {
      DigitsValueDecimal(n / 10);
      assert s[..|s| - 1] == DecimalString(n / 10);
    }
  }

  /** The magnitude that signed decimal digits denote. */
  function Magnitude(t: string): nat
    requires IsSignedDigits(t)
  {
    if IsDigits(t) then DigitsValue(t) else DigitsValue(t[1..])
  }

  /**
   * A number is accepted exactly when its trimmed text is blank, or signed
   * decimal digits whose magnitude stays finite as a double.
   */
  lemma ParseNumberAccepts(s: string)
    ensures ParseNumber(s).Some? <==>
      AllWs(s) || (IsSignedDigits(Trim(s)) && Magnitude(Trim(s)) < InfiniteFrom)
  {
    TrimEmpty(s);
  }

  /** Decimal digits parse to their value, or to an infinity when it is too large. */
  lemma ParseNumberDigits(d: string)
    requires IsDigits(d)
    ensures ParseNumber(d) == Finite(DigitsValue(d))
  {
    TrimmedSelf(d);
  }

  /** Decimal digits after a sign parse to their value, negated after a `-`, or to an infinity when too large. */
  lemma ParseNumberSigned(sign: char, d: string)
    requires IsDigits(d) && (sign == '+' || sign == '-')
    ensures ParseNumber([sign] + d) == Finite(if sign == '-' then -(DigitsValue(d) as int) else DigitsValue(d))
  {
    var t := [sign] + d;
    assert t[1..] == d && !IsDigit(t[0]) && t[|t| - 1] == d[|d| - 1];
    TrimmedSelf(t);
  }

  /**
   * Decimal text with white space around it parses to its value when that
   * is below the overflow bound, and is not finite otherwise.
   */
  lemma ParseNumberDecimal(pre: string, n: nat, post: string)
    requires AllWs(pre) && AllWs(post)
    ensures n < InfiniteFrom ==> ParseNumber(pre + DecimalString(n) + post) == Some(n)
    ensures n >= InfiniteFrom ==> ParseNumber(pre + DecimalString(n) + post) == None
  {
    var d := DecimalString(n);
    DigitsValueDecimal(n);
    ParseNumberDigits(d);
    ParseNumberPadded(pre, d, post);
  }

  /**
   * Decimal text after a `+` or `-`, with white space around it, parses to
   * its value, negated after a `-`, when that is below the overflow bound,
   * and is not finite otherwise.
   */
  lemma ParseNumberSignedDecimal(pre: string, sign: char, n: nat, post: string)
    requires AllWs(pre) && AllWs(post) && (sign == '+' || sign == '-')
    ensures n < InfiniteFrom ==>
      ParseNumber(pre + ([sign] + DecimalString(n)) + post) == Some(if sign == '-' then -(n as int) else n)
    ensures n >= InfiniteFrom ==> ParseNumber(pre + ([sign] + DecimalString(n)) + post) == None
  {
    var d := DecimalString(n);
    var t := [sign] + d;
    var v: int := if sign == '-' then -(n as int) else n;
    assert ParseNumber(pre + t + post) == Finite(v) by {
      assert TrimmedEnds(t) by {
        assert t[|t| - 1] == d[|d| - 1];
      }
      DigitsValueDecimal(n);
      ParseNumberSigned(sign, d);
      ParseNumberPadded(pre, t, post);
    }
  }

  /** White space around a text without white space at its ends does not change the number read. */
  lemma ParseNumberPadded(pre: string, t: string, post: string)
    requires AllWs(pre) && AllWs(post) && TrimmedEnds(t)
    ensures ParseNumber(pre + t + post) == ParseNumber(t)
  {
    TrimPadded(pre, t, post);
    TrimmedSelf(t);
  }

  /** A blank `Points` value is the finite number 0: such a row is kept but matches no point value of the board. */
  lemma BlankPointsAreZero(r: Row)
    requires "Points" in r && AllWs(r["Points"])
    ensures ToPoints(r) == Some(0)
  {
    TrimEmpty(r["Points"]);
  }
}
