/** The names of versions, and how the next one is made from the current one. */
module VersionNames {
  import opened Prelude
  import opened Texts

  const FIRST_VERSION := "0.1.0"

  predicate IsDigit(c: char) { '0' <= c <= '9' }

  function DigitValue(c: char): nat
    requires IsDigit(c)
  {
    c as int - '0' as int
  }

  function DigitOf(n: nat): (c: char)
    requires n < 10
    ensures IsDigit(c) && DigitValue(c) == n
  {
    ('0' as int + n) as char
  }

  function Decimal(n: nat): (r: string)
    ensures r != [] && forall i :: 0 <= i < |r| ==> IsDigit(r[i])
  {
    if n < 10 then [DigitOf(n)] else Decimal(n / 10) + [DigitOf(n % 10)]
  }

  /** The number a run of digits stands for. */
  function Number(digits: string): nat
    requires forall i :: 0 <= i < |digits| ==> IsDigit(digits[i])
  {
    if digits == [] then 0 else 10 * Number(digits[..|digits| - 1]) + DigitValue(digits[|digits| - 1])
  }

  function ParseNumber(part: string): Option<nat> {
    if part != [] && forall i :: 0 <= i < |part| ==> IsDigit(part[i]) then Some(Number(part)) else None
  }

  lemma {:induction false} DecimalParses(n: nat)
    ensures ParseNumber(Decimal(n)) == Some(n)
  {
    var r := Decimal(n);
    var front, last := r[..|r| - 1], r[|r| - 1];
    if n >= 10 {
      DecimalParses(n / 10);
      assert front == Decimal(n / 10) && last == DigitOf(n % 10);
    } else {
      assert front == [];
    }
    assert Number(r) == 10 * Number(front) + DigitValue(last);
  }

  /** `major.minor.patch`. */
  function Name(major: nat, minor: nat, patch: nat): string {
    Decimal(major) + ['.'] + (Decimal(minor) + ['.'] + Decimal(patch))
  }

  /** The parts of `text` before and after the first dot. */
  function AtDot(text: string): Option<(string, string)> {
    var first := Before(text, '.');
    if |first| == |text| then None else Some((first, text[|first| + 1..]))
  }

  /** Three numbers between two dots. */
  function Parts(base: string): Option<(nat, nat, nat)> {
    var one := AtDot(base);
    if one.None? then None
    else
      var two := AtDot(one.value.1);
      if two.None? then None
      else
        var major, minor, patch :=
          ParseNumber(one.value.0), ParseNumber(two.value.0), ParseNumber(two.value.1);
        if major.Some? && minor.Some? && patch.Some? then Some((major.value, minor.value, patch.value)) else None
  }

  /** The numbers of a name, without its suffix. */
  function NumbersOf(name: string): Option<(nat, nat, nat)> {
    Parts(Before(name, '-'))
  }

  /** `next_patch_version`, from the name of the current version: without its suffix, one patch on. */
  function NextPatch(name: string): string {
    var parts := NumbersOf(name);
    if parts.None? then FIRST_VERSION else Name(parts.value.0, parts.value.1, parts.value.2 + 1)
  }

  lemma AtDotOf(first: string, rest: string)
    requires '.' !in first
    ensures AtDot(first + ['.'] + rest) == Some((first, rest))
  {
    BeforeAppend(first, rest, '.');
    assert (first + ['.'] + rest)[|first| + 1..] == rest;
  }

  lemma PartsOfName(major: nat, minor: nat, patch: nat)
    ensures Parts(Name(major, minor, patch)) == Some((major, minor, patch))
  {
    DecimalParses(major);
    DecimalParses(minor);
    DecimalParses(patch);
    AtDotOf(Decimal(major), Decimal(minor) + ['.'] + Decimal(patch));
    AtDotOf(Decimal(minor), Decimal(patch));
  }

  /** Names tell their numbers, so no two of them are the same. */
  lemma NamesAreDistinct(major: nat, minor: nat, patch: nat, other: nat)
    requires Name(major, minor, patch) == Name(major, minor, other)
    ensures patch == other
  {
    PartsOfName(major, minor, patch);
    PartsOfName(major, minor, other);
  }

  /** A plain name has its numbers, with or without a suffix. */
  lemma NumbersOfName(major: nat, minor: nat, patch: nat, suffix: string)
    ensures NumbersOf(Name(major, minor, patch)) == Some((major, minor, patch))
    ensures NumbersOf(Name(major, minor, patch) + ['-'] + suffix) == Some((major, minor, patch))
  {
    var name := Name(major, minor, patch);
    assert '-' !in name;
    BeforeAll(name, '-');
    BeforeAppend(name, suffix, '-');
    PartsOfName(major, minor, patch);
  }

  /** The next name after a plain one, with or without a suffix, is the one with the next patch number. */
  lemma NextPatchOfName(major: nat, minor: nat, patch: nat, suffix: string)
    ensures NextPatch(Name(major, minor, patch)) == Name(major, minor, patch + 1)
    ensures NextPatch(Name(major, minor, patch) + ['-'] + suffix) == Name(major, minor, patch + 1)
  {
    NumbersOfName(major, minor, patch, suffix);
  }

  lemma FirstVersion()
    ensures FIRST_VERSION == Name(0, 1, 0)
  {
    assert Decimal(0) == "0" && Decimal(1) == "1";
  }
}
