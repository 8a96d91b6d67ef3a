/** Dotted versions: their numeric order, and when one satisfies a requirement. */
module Versions {
  import opened Wrappers
  import opened Text

  const U64_MAX := 0xFFFF_FFFF_FFFF_FFFF

  /** A part that is no 64-bit number counts as zero. */
  function Number(part: string): nat {
    var n := ParseUnsigned(part, U64_MAX);
    if n.Some? then n.value else 0
  }

  function Numbers(parts: seq<string>): (r: seq<nat>)
    ensures |r| == |parts|
  {
    if parts == [] then [] else [Number(parts[0])] + Numbers(parts[1..])
  }

  function Parsed(version: string): (r: seq<nat>)
    ensures |r| > 0
  {
    Numbers(Split(version, '.'))
  }

  /** The order of vectors: element by element, a proper prefix first. */
  predicate Less(a: seq<nat>, b: seq<nat>) {
    b != [] && (a == [] || a[0] < b[0] || (a[0] == b[0] && Less(a[1..], b[1..])))
  }

  predicate Lower(a: string, b: string) {
    Less(Parsed(a), Parsed(b))
  }

  function Major(version: string): nat {
    Number(Split(version, '.')[0])
  }

  /** Equal major numbers and not lower, or no minimum at all. */
  predicate Satisfies(found: string, minimum: string) {
    minimum == "" || (Major(found) == Major(minimum) && !Lower(found, minimum))
  }

  lemma {:induction false} LessIsTotal(a: seq<nat>, b: seq<nat>)
    ensures Less(a, b) || Less(b, a) || a == b
    ensures !(Less(a, b) && Less(b, a))
    ensures !Less(a, a)
  {
    if a != [] {
      LessIsTotal(a[1..], a[1..]);
    }
    if a != [] && b != [] && a[0] == b[0] {
      LessIsTotal(a[1..], b[1..]);
      assert a == [a[0]] + a[1..] && b == [b[0]] + b[1..];
    }
  }

  lemma {:induction false} LessIsTransitive(a: seq<nat>, b: seq<nat>, c: seq<nat>)
    requires Less(a, b) && Less(b, c)
    ensures Less(a, c)
  {
    if a != [] && a[0] == b[0] && b[0] == c[0] {
      LessIsTransitive(a[1..], b[1..], c[1..]);
    }
  }

  /** Where two versions first differ: at a smaller number, or where the lower one ends. */
  ghost predicate DiffersAt(a: seq<nat>, b: seq<nat>, k: nat) {
    k <= |a| && k < |b| && a[..k] == b[..k] && (k == |a| || a[k] < b[k])
  }

  /** Less is less at the first number that differs, or ends first. */
  lemma {:induction false} LessMeans(a: seq<nat>, b: seq<nat>)
    ensures Less(a, b) <==> exists k: nat :: DiffersAt(a, b, k)
  {
    if b == [] {
    } else if a == [] || a[0] < b[0] {
      assert DiffersAt(a, b, 0);
    } else if a[0] == b[0] {
      LessMeans(a[1..], b[1..]);
      if k: nat :| DiffersAt(a[1..], b[1..], k) {
        assert a[..k + 1] == [a[0]] + a[1..][..k] && b[..k + 1] == [b[0]] + b[1..][..k];
        assert DiffersAt(a, b, k + 1);
      }
      if k: nat :| DiffersAt(a, b, k) {
        assert a[1..][..k - 1] == a[..k][1..] && b[1..][..k - 1] == b[..k][1..];
        assert DiffersAt(a[1..], b[1..], k - 1);
      }
    } else {
      forall k: nat
        ensures !DiffersAt(a, b, k)
      {
        assert k > 0 && k <= |a| && k < |b| ==> a[..k][0] == a[0] && b[..k][0] == b[0];
      }
    }
  }

  /** A version written from numbers is those numbers. */
  lemma {:induction false} NumbersAreRead(numbers: seq<nat>)
    requires numbers != [] && forall i :: 0 <= i < |numbers| ==> numbers[i] <= U64_MAX
    ensures Parsed(Join(seq(|numbers|, i requires 0 <= i < |numbers| => Decimal(numbers[i])), '.')) == numbers
  {
    var parts := seq(|numbers|, i requires 0 <= i < |numbers| => Decimal(numbers[i]));
    SplitInvertsJoin(parts, '.');
    PartsAreRead(numbers, parts);
  }

  lemma {:induction false} PartsAreRead(numbers: seq<nat>, parts: seq<string>)
    requires |parts| == |numbers| && forall i :: 0 <= i < |parts| ==> numbers[i] <= U64_MAX && parts[i] == Decimal(numbers[i])
    ensures Numbers(parts) == numbers
  {
    hide Decimal, ParseUnsigned;
    if parts != [] {
      ParsePrinted(numbers[0], U64_MAX);
      PartsAreRead(numbers[1..], parts[1..]);
      assert numbers == [numbers[0]] + numbers[1..];
    }
  }

  /** A part with anything but digits in it, behind the plus sign a number may have, counts as zero. */
  lemma OtherPartsAreZero(part: string, i: nat)
    requires 0 < i < |part| && !IsDigit(part[i])
    ensures Number(part) == 0
  {
    var digits := if |part| > 1 && part[0] == '+' then part[1..] else part;
    assert digits == part || digits[i - 1] == part[i];
  }

  /** Not being lower carries along: the order the candidates are ranked by is a total preorder. */
  lemma NotLowerIsTransitive(a: string, b: string, c: string)
    requires !Lower(a, b) && !Lower(b, c)
    ensures !Lower(a, c)
  {
    LessIsTotal(Parsed(a), Parsed(b));
    LessIsTotal(Parsed(b), Parsed(c));
    LessIsTotal(Parsed(a), Parsed(c));
    hide Parsed;
    if Less(Parsed(a), Parsed(c)) && Less(Parsed(b), Parsed(a)) {
      LessIsTransitive(Parsed(b), Parsed(a), Parsed(c));
    }
  }

  /** A requirement is met by any version if it names no minimum, else by those of its first number that are not less. */
  lemma SatisfiesMeans(found: string, minimum: string)
    ensures Satisfies(found, minimum) <==>
            minimum == "" || (Parsed(found)[0] == Parsed(minimum)[0] && !Less(Parsed(found), Parsed(minimum)))
  {
    hide Number;
  }

  /** What satisfies a requirement is closed upwards within its major version. */
  lemma HigherSatisfies(found: string, higher: string, minimum: string)
    requires Satisfies(found, minimum) && !Lower(higher, found) && Major(higher) == Major(found)
    ensures Satisfies(higher, minimum)
  {
    if minimum != "" {
      NotLowerIsTransitive(higher, found, minimum);
    }
  }
}
