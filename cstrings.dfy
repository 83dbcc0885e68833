/**
 * The values a string column stores: C strings, compared with strcmp.
 * Each char stands for one byte (a value up to 0xFF), and a C string cannot
 * hold a NUL byte, so strlen(s) is |s| and strcmp never stops early; strcmp
 * is then plain lexicographic order on unsigned bytes.
 */
module CStrings {

  type CString = s: seq<char> | '\0' !in s && forall c | c in s :: c <= '\U{FF}'

  /** The sign of strcmp(a, b): -1, 0 or 1. A proper prefix sorts first. */
  function StrCmp(a: CString, b: CString): (r: int)
    ensures -1 <= r <= 1
    ensures a == [] ==> (r == 0 <==> b == [])
  {
    if a == [] && b == [] then 0
    else if a == [] then -1
    else if b == [] then 1
    else if a[0] < b[0] then -1
    else if a[0] > b[0] then 1
    else StrCmp(a[1..], b[1..])
  }

  /** strcmp reports equality exactly for equal strings. */
  lemma {:induction false} StrCmpZero(a: CString, b: CString)
    ensures StrCmp(a, b) == 0 <==> a == b
  {
    if a != [] && b != [] && a[0] == b[0] {
      StrCmpZero(a[1..], b[1..]);
      assert a == [a[0]] + a[1..];
      assert b == [b[0]] + b[1..];
    }
  }

  /** Swapping the arguments negates the result. */
  lemma {:induction false} StrCmpFlip(a: CString, b: CString)
    ensures StrCmp(b, a) == -StrCmp(a, b)
  {
    if a != [] && b != [] && a[0] == b[0] {
      StrCmpFlip(a[1..], b[1..]);
    }
  }

  /** "Sorts before" is transitive. */
  lemma {:induction false} StrCmpTrans(a: CString, b: CString, c: CString)
    requires StrCmp(a, b) < 0 && StrCmp(b, c) < 0
    ensures StrCmp(a, c) < 0
  {
    if a != [] && b != [] && c != [] && a[0] == b[0] && b[0] == c[0] {
      StrCmpTrans(a[1..], b[1..], c[1..]);
    }
  }

  /** "Sorts before or equal" is transitive, and strict as soon as one step is strict. */
  lemma StrCmpLeTrans(a: CString, b: CString, c: CString)
    requires StrCmp(a, b) <= 0 && StrCmp(b, c) <= 0
    ensures StrCmp(a, c) <= 0
    ensures StrCmp(a, b) < 0 || StrCmp(b, c) < 0 ==> StrCmp(a, c) < 0
  {
    StrCmpZero(a, b);
    StrCmpZero(b, c);
    if StrCmp(a, b) < 0 && StrCmp(b, c) < 0 {
      StrCmpTrans(a, b, c);
    }
  }

  /** Every pair of rows in order under strcmp (equal rows allowed). */
  ghost predicate NonDecreasing(s: seq<CString>)
  {
    forall i, j | 0 <= i < j < |s| :: StrCmp(s[i], s[j]) <= 0
  }

  /** Every pair of rows strictly in order under strcmp: sorted and duplicate-free. */
  ghost predicate StrictlyAscending(s: seq<CString>)
  {
    forall i, j | 0 <= i < j < |s| :: StrCmp(s[i], s[j]) < 0
  }
}
