/** C strings and `strcmp`, the order that the tree and the hash map compare keys by. */
module CStrings {

  // A character of a C string, read as an unsigned byte; 0 is the terminator and never part of the string.
  type Byte = b: int | 1 <= b < 256 witness 1

  type CStr = seq<Byte>

  // The difference of the first pair of bytes that differ, the terminator counting as 0.
  function Strcmp(a: CStr, b: CStr): int {
    if a == [] then (if b == [] then 0 else -(b[0] as int))
    else if b == [] then a[0]
    else if a[0] == b[0] then Strcmp(a[1..], b[1..])
    else (a[0] as int) - (b[0] as int)
  }

  predicate Less(a: CStr, b: CStr) {
    Strcmp(a, b) < 0
  }

  // The byte at place i, the terminator at the end.
  function At(a: CStr, i: nat): int
    requires i <= |a|
  {
    if i < |a| then a[i] else 0
  }

  // The result is the difference of the bytes at the first place where they differ, the terminators included.
  lemma {:induction false} StrcmpIs(a: CStr, b: CStr, i: nat)
    requires i <= |a| && i <= |b| && (forall j :: 0 <= j < i ==> a[j] == b[j]) && At(a, i) != At(b, i)
    ensures Strcmp(a, b) == At(a, i) - At(b, i)
  {
    if i > 0 {
      assert a[0] == b[0];
      StrcmpIs(a[1..], b[1..], i - 1);
    }
  }

  lemma {:induction false} StrcmpZero(a: CStr, b: CStr)
    ensures Strcmp(a, b) == 0 <==> a == b
  {
    if a != [] && b != [] && a[0] == b[0] {
      StrcmpZero(a[1..], b[1..]);
      assert a == [a[0]] + a[1..] && b == [b[0]] + b[1..];
    }
  }

  lemma {:induction false} StrcmpAntisymmetric(a: CStr, b: CStr)
    ensures Strcmp(a, b) == -Strcmp(b, a)
  {
    if a != [] && b != [] && a[0] == b[0] {
      StrcmpAntisymmetric(a[1..], b[1..]);
    }
  }

  lemma {:induction false} LessTransitive(a: CStr, b: CStr, c: CStr)
    requires Less(a, b) && Less(b, c)
    ensures Less(a, c)
  {
    if a != [] && b != [] && c != [] && a[0] == b[0] == c[0] {
      LessTransitive(a[1..], b[1..], c[1..]);
    }
  }
}
