/**
 * The record classifier of pages/index.tsx: the fixed `types` table, the
 * type read from a record's id, and `typeToTags`.
 */
module Classify {
  import opened Basics
  import opened JsString

  /** The five record types (the string union `Type`). */
  datatype Type =
    | CloudAndContainersType
    | CloudType
    | ContainersType
    | CiCdType
    | CloudContainersAndCiCdType

  /** The three tags a card can carry. */
  datatype Tag = Cloud | Containers | CiCd

  /** The display text of a type, as the string union spells it. */
  function TypeName(t: Type): string
  {
    match t
    case CloudAndContainersType => "Cloud and containers"
    case CloudType => "Cloud"
    case ContainersType => "Containers"
    case CiCdType => "CI/CD"
    case CloudContainersAndCiCdType => "Cloud, containers and CI/CD"
  }

  /** The display text of a tag. */
  function TagName(g: Tag): string
  {
    match g
    case Cloud => "Cloud"
    case Containers => "Containers"
    case CiCd => "CI/CD"
  }

  /** The position of a type in the `types` table. */
  function Code(t: Type): nat
  {
    match t
    case CloudAndContainersType => 0
    case CloudType => 1
    case ContainersType => 2
    case CiCdType => 3
    case CloudContainersAndCiCdType => 4
  }

  /** The `types` table: `types[n]`, undefined outside 0..4. */
  function TypeOfCode(n: nat): (t: Option<Type>)
    ensures t.Some? <==> n < 5
    ensures t.Some? ==> Code(t.value) == n
  {
    if n == 0 then Some(CloudAndContainersType)
    else if n == 1 then Some(CloudType)
    else if n == 2 then Some(ContainersType)
    else if n == 3 then Some(CiCdType)
    else if n == 4 then Some(CloudContainersAndCiCdType)
    else None
  }

  /** Every type is in the table, at its own position. */
  lemma TypeOfCodeOfCode(t: Type)
    ensures TypeOfCode(Code(t)) == Some(t)
  {
  }

  predicate IsDigit(ch: char)
  {
    '0' <= ch <= '9'
  }

  predicate AllDigits(s: string)
  {
    forall i :: 0 <= i < |s| ==> IsDigit(s[i])
  }

  /** The decimal value of a digit string; 0 for the empty string. */
  function DigitsValue(s: string): nat
    requires AllDigits(s)
  {
    if |s| == 0 then 0
    else DigitsValue(s[..|s| - 1]) * 10 + (s[|s| - 1] as int - '0' as int)
  }

  /** `Number(s)` for a string of decimal digits; `None` (NaN) for anything else. */
  function ParseNumber(s: string): (r: Option<nat>)
    ensures r.Some? <==> AllDigits(s)
    ensures s == "" ==> r == Some(0)
  {
    if AllDigits(s) then Some(DigitsValue(s)) else None
  }

  /** The decimal spelling of a natural number. */
  function Decimal(n: nat): (s: string)
    ensures |s| > 0 && AllDigits(s)
  {
    if n < 10 then [('0' as int + n) as char]
    else Decimal(n / 10) + [('0' as int + n % 10) as char]
  }

  /** Parsing the decimal spelling of `n` gives `n` back. */
  lemma {:induction false} ParseDecimal(n: nat)
    ensures ParseNumber(Decimal(n)) == Some(n)
  {
    var s := Decimal(n);
    if n >= 10 {
      ParseDecimal(n / 10);
      assert s[..|s| - 1] == Decimal(n / 10);
    } else {
      assert s[..|s| - 1] == [];
      assert s[0] as int == '0' as int + n;
      assert DigitsValue(s) == n;
    }
  }

  /** The type named by the text between an id's first and second dots. */
  function MinorType(minor: string): Option<Type>
  {
    match ParseNumber(minor)
    case None => None
    case Some(n) => TypeOfCode(n)
  }

  /** `types[Number(id.split(".")[1])]` (lines 91-92). */
  function TypeOfId(id: string): (t: Option<Type>)
    ensures t.Some? ==> var parts := Split(id, ".");
              |parts| >= 2 && AllDigits(parts[1]) && Code(t.value) == DigitsValue(parts[1])
  {
    var parts := Split(id, ".");
    if |parts| < 2 then None else MinorType(parts[1])
  }

  /** An id without a dot has no type. */
  lemma TypeOfIdWithoutDot(id: string)
    requires Free(id, ".")
    ensures TypeOfId(id) == None
  {
    SplitFree(id, ".");
  }

  /**
   * Only the second dot-separated segment of an id decides its type: what
   * comes before the first dot, and anything from a second dot on, is ignored.
   */
  lemma TypeOfIdSecondSegment(major: string, minor: string, rest: string)
    requires Free(major, ".") && Free(minor, ".")
    ensures TypeOfId(major + "." + minor) == MinorType(minor)
    ensures TypeOfId(major + "." + minor + "." + rest) == MinorType(minor)
  {
    SplitAfterFirst(major, ".", minor);
    SplitFree(minor, ".");
    assert major + "." + minor + "." + rest == major + "." + (minor + "." + rest);
    SplitAfterFirst(major, ".", minor + "." + rest);
    SplitAfterFirst(minor, ".", rest);
  }

  /** An id `<major>.<n>` has the type at position `n` of the table. */
  lemma TypeOfIdWithCode(major: string, n: nat)
    requires Free(major, ".")
    ensures TypeOfId(major + "." + Decimal(n)) == TypeOfCode(n)
    ensures n < 5 ==> TypeOfId(major + "." + Decimal(n)).Some?
  {
    DigitsHaveNoDot(Decimal(n));
    TypeOfIdSecondSegment(major, Decimal(n), "");
    ParseDecimal(n);
  }

  /**
   * The id suffixes 0 to 4 name the five types, under the names the string
   * union spells out (lines 6-11 and 21-27).
   */
  lemma TypeOfIdSuffixNames(major: string)
    requires Free(major, ".")
    ensures var t := TypeOfId(major + "." + Decimal(0)); t.Some? && TypeName(t.value) == "Cloud and containers"
    ensures var t := TypeOfId(major + "." + Decimal(1)); t.Some? && TypeName(t.value) == "Cloud"
    ensures var t := TypeOfId(major + "." + Decimal(2)); t.Some? && TypeName(t.value) == "Containers"
    ensures var t := TypeOfId(major + "." + Decimal(3)); t.Some? && TypeName(t.value) == "CI/CD"
    ensures var t := TypeOfId(major + "." + Decimal(4)); t.Some? && TypeName(t.value) == "Cloud, containers and CI/CD"
  {
    TypeOfIdWithCode(major, 0);
    TypeOfIdWithCode(major, 1);
    TypeOfIdWithCode(major, 2);
    TypeOfIdWithCode(major, 3);
    TypeOfIdWithCode(major, 4);
  }

  /**
   * Distinct types have distinct names, so comparing the names, as the
   * source's `switch` and string union do, is comparing the types.
   */
  lemma TypeNameInjective(t: Type, u: Type)
    requires TypeName(t) == TypeName(u)
    ensures t == u
  {
  }

  /** Distinct tags have distinct names, so `selectedTag === "Cloud"` compares tags. */
  lemma TagNameInjective(g: Tag, h: Tag)
    requires TagName(g) == TagName(h)
    ensures g == h
  {
  }

  /** An empty second segment reads as `Number("") == 0`: `<major>.` is "Cloud and containers". */
  lemma TypeOfIdEmptyMinor(major: string)
    requires Free(major, ".")
    ensures TypeOfId(major + ".") == Some(CloudAndContainersType)
  {
    TypeOfIdSecondSegment(major, "", "");
    assert major + "." + "" == major + ".";
  }

  /** A second segment with a character that is not a digit gives no type. */
  lemma TypeOfIdNonDigit(major: string, minor: string, i: nat)
    requires Free(major, ".") && Free(minor, ".") && i < |minor| && !IsDigit(minor[i])
    ensures TypeOfId(major + "." + minor) == None
  {
    TypeOfIdSecondSegment(major, minor, "");
  }

  lemma DigitsHaveNoDot(s: string)
    requires AllDigits(s)
    ensures Free(s, ".")
  {
    forall i: nat | i <= |s|
      ensures !OccursAt(s, ".", i)
    {
      if i + 1 <= |s| {
        assert s[i..i + 1] == [s[i]];
      }
    }
  }

  /** `typeToTags` (lines 35-50). */
  function TypeToTags(t: Option<Type>): (tags: seq<Tag>)
    ensures NoDuplicates(tags)
    ensures |tags| == 0 <==> t.None?
    ensures forall k, l :: 0 <= k < l < |tags| ==> TagRank(tags[k]) < TagRank(tags[l])
  {
    match t
    case None => []
    case Some(CloudAndContainersType) => [Cloud, Containers]
    case Some(CloudType) => [Cloud]
    case Some(ContainersType) => [Containers]
    case Some(CiCdType) => [CiCd]
    case Some(CloudContainersAndCiCdType) => [Cloud, Containers, CiCd]
  }

  /** The order in which the tags are listed. */
  function TagRank(g: Tag): nat
  {
    match g
    case Cloud => 0
    case Containers => 1
    case CiCd => 2
  }

  /**
   * Which tags a type's name lists, read off the names tag by tag: "Cloud"
   * appears in three of them, "containers" in three, "CI/CD" in two.
   */
  predicate Carries(t: Type, g: Tag)
  {
    match g
    case Cloud => t == CloudAndContainersType || t == CloudType || t == CloudContainersAndCiCdType
    case Containers => t == CloudAndContainersType || t == ContainersType || t == CloudContainersAndCiCdType
    case CiCd => t == CiCdType || t == CloudContainersAndCiCdType
  }

  /** `typeToTags` lists exactly the tags a type carries. */
  lemma TypeToTagsCarried(t: Type, g: Tag)
    ensures g in TypeToTags(Some(t)) <==> Carries(t, g)
  {
  }

  /** No two types show the same tags. */
  lemma TypeToTagsInjective(t: Type, u: Type)
    requires TypeToTags(Some(t)) == TypeToTags(Some(u))
    ensures t == u
  {
  }
}
