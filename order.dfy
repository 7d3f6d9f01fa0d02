/** Segment orderer: the byte-wise lexicographic order on file names, and the
    in-place sort that puts a listing of segment names in ascending order.
    For segment names (fixed length, upper-case hex) this order is the
    numeric order of the WAL counter they spell, so the last name after
    sorting is the newest segment. */
module Order {
  import opened Segments

  /** `a` sorts before or equal to `b`: compare character by character, and a
      proper prefix sorts first. Characters compare by code point, which is
      the order of their UTF-8 bytes. */
  predicate LexLessEq(a: string, b: string)
    ensures a <= b ==> LexLessEq(a, b)
  {
    if a == [] then true
    else if b == [] then false
    else if a[0] != b[0] then a[0] < b[0]
    else LexLessEq(a[1..], b[1..])
  }

  /** Ascending order, every pair compared. */
  predicate Sorted(s: seq<string>)
  {
    forall p, q :: 0 <= p < q < |s| ==> LexLessEq(s[p], s[q])
  }

  lemma {:induction false} LexReflexive(a: string)
    ensures LexLessEq(a, a)
    decreases |a|
  {
    if a != [] {
      LexReflexive(a[1..]);
    }
  }

  lemma {:induction false} LexTotal(a: string, b: string)
    ensures LexLessEq(a, b) || LexLessEq(b, a)
    decreases |a|
  {
    if a != [] && b != [] && a[0] == b[0] {
      LexTotal(a[1..], b[1..]);
    }
  }

  lemma {:induction false} LexAntisymmetric(a: string, b: string)
    requires LexLessEq(a, b) && LexLessEq(b, a)
    ensures a == b
    decreases |a|
  {
    if a != [] && b != [] {
      LexAntisymmetric(a[1..], b[1..]);
      assert a == [a[0]] + a[1..] && b == [b[0]] + b[1..];
    }
  }

  lemma {:induction false} LexTransitive(a: string, b: string, c: string)
    requires LexLessEq(a, b) && LexLessEq(b, c)
    ensures LexLessEq(a, c)
    decreases |a|
  {
    if a != [] && b != [] && c != [] && a[0] == b[0] && b[0] == c[0] {
      LexTransitive(a[1..], b[1..], c[1..]);
    }
  }

  /** Sorts the caller's names in place into ascending order; the result is a
      rearrangement of what was there. */
  method SortXlogFiles(a: array<string>)
    modifies a
    ensures Sorted(a[..])
    ensures multiset(a[..]) == multiset(old(a[..]))
  {
    var i := 0;
    while i < a.Length
      invariant 0 <= i <= a.Length
      invariant SortedPrefix(a[..], i)
      invariant multiset(a[..]) == multiset(old(a[..]))
    {
      var m := MinIndex(a, i);
      ghost var before := a[..];
      a[i], a[m] := a[m], a[i];
      SelectionStep(before, a[..], i, m);
      i := i + 1;
    }
    assert a[..] == a[..a.Length];
  }

  /** The first `i` names are in order and none of them exceeds a later one. */
  predicate SortedPrefix(s: seq<string>, i: nat)
  {
    i <= |s| &&
    (forall p, q :: 0 <= p < q < i ==> LexLessEq(s[p], s[q])) &&
    (forall p, q :: 0 <= p < i <= q < |s| ==> LexLessEq(s[p], s[q]))
  }

  /** Swapping a least remaining name into position `i` extends the sorted prefix. */
  lemma SelectionStep(before: seq<string>, after: seq<string>, i: nat, m: nat)
    requires i <= m < |before| && SortedPrefix(before, i)
    requires forall q :: i <= q < |before| ==> LexLessEq(before[m], before[q])
    requires after == before[i := before[m]][m := before[i]]
    ensures SortedPrefix(after, i + 1)
    ensures multiset(after) == multiset(before)
  {
    assert forall q :: i <= q < |after| ==> after[q] == before[if q == i then m else if q == m then i else q];
  }

  /** Index of a least name among `a[from..]`. */
  method MinIndex(a: array<string>, from: nat) returns (m: nat)
    requires from < a.Length
    ensures from <= m < a.Length
    ensures forall q :: from <= q < a.Length ==> LexLessEq(a[m], a[q])
  {
    m := from;
    LexReflexive(a[m]);
    var j := from + 1;
    while j < a.Length
      invariant from <= m < j <= a.Length
      invariant forall q :: from <= q < j ==> LexLessEq(a[m], a[q])
    {
      if !LexLessEq(a[m], a[j]) {
        LexTotal(a[m], a[j]);
        forall q | from <= q < j
          ensures LexLessEq(a[j], a[q])
        {
          LexTransitive(a[j], a[m], a[q]);
        }
        LexReflexive(a[j]);
        m := j;
      }
      j := j + 1;
    }
  }

  /** The sorted arrangement of a listing is unique: two sorted sequences
      holding the same names are equal. */
  lemma {:induction false} SortedUnique(s: seq<string>, t: seq<string>)
    requires Sorted(s) && Sorted(t) && multiset(s) == multiset(t)
    ensures s == t
    decreases |s|
  {
    if s == [] {
      assert |t| == |multiset(t)| == 0;
    } else {
      assert |t| == |multiset(t)| == |s| > 0;
      LeastIsFirst(t, s[0]);
      LeastIsFirst(s, t[0]);
      LexAntisymmetric(s[0], t[0]);
      SameTail(s, t);
      SortedTail(s);
      SortedTail(t);
      SortedUnique(s[1..], t[1..]);
      assert s == [s[0]] + s[1..] && t == [t[0]] + t[1..];
    }
  }

  lemma SortedTail(s: seq<string>)
    requires Sorted(s) && s != []
    ensures Sorted(s[1..])
  {
    forall p, q | 0 <= p < q < |s| - 1
      ensures LexLessEq(s[1..][p], s[1..][q])
    {
      assert s[1..][p] == s[p + 1] && s[1..][q] == s[q + 1];
    }
  }

  lemma SameTail(s: seq<string>, t: seq<string>)
    requires s != [] && t != [] && s[0] == t[0] && multiset(s) == multiset(t)
    ensures multiset(s[1..]) == multiset(t[1..])
  {
    TailMultiset(s);
    TailMultiset(t);
  }

  lemma TailMultiset(s: seq<string>)
    requires s != []
    ensures multiset(s[1..]) == multiset(s) - multiset{s[0]}
  {
    assert s == [s[0]] + s[1..];
  }

  /** In a sorted sequence the first element is at most any element. */
  lemma LeastIsFirst(s: seq<string>, x: string)
    requires Sorted(s) && x in multiset(s)
    ensures LexLessEq(s[0], x)
  {
    var j :| 0 <= j < |s| && s[j] == x;
    if j == 0 {
      LexReflexive(x);
    }
  }

  /** In a sorted sequence the last element is at least any element. */
  lemma LastIsGreatest(s: seq<string>, x: string)
    requires Sorted(s) && x in s
    ensures LexLessEq(x, s[|s| - 1])
  {
    var j :| 0 <= j < |s| && s[j] == x;
    if j == |s| - 1 {
      LexReflexive(x);
    }
  }

  /** Value of one hexadecimal digit. */
  function HexDigit(c: char): (d: nat)
    requires !InvalidCharacter(c)
    ensures d < 16
  {
    if '0' <= c <= '9' then (c as int) - ('0' as int) else (c as int) - ('A' as int) + 10
  }

  function Pow16(n: nat): (r: nat)
    ensures r >= 1
  {
    if n == 0 then 1 else 16 * Pow16(n - 1)
  }

  /** The number a string of hex digits spells, most significant digit first. */
  function HexValue(s: string): nat
    requires AllHex(s)
  {
    if s == [] then 0 else HexDigit(s[0]) * Pow16(|s| - 1) + HexValue(s[1..])
  }

  /** A string of n hex digits spells a number below 16^n. */
  lemma {:induction false} HexValueBound(s: string)
    requires AllHex(s)
    ensures HexValue(s) < Pow16(|s|)
    decreases |s|
  {
    if s != [] {
      HexValueBound(s[1..]);
      var d, p, r := HexDigit(s[0]), Pow16(|s| - 1), HexValue(s[1..]);
      assert HexValue(s) == d * p + r;
      assert Pow16(|s|) == 16 * p;
      LeadingDigitDominates(d, 16, p, r, 0);
    }
  }

  /** With a remainder below `p`, a smaller leading digit gives a smaller number. */
  lemma LeadingDigitDominates(x: nat, y: nat, p: nat, rx: nat, ry: nat)
    requires x < y && rx < p
    ensures x * p + rx < y * p + ry
  {
    assert (x + 1) * p <= y * p by {
      MulMonotone(x + 1, y, p);
    }
  }

  lemma MulMonotone(x: nat, y: nat, p: nat)
    requires x <= y
    ensures x * p <= y * p
  {
  }

  /** Digits compare as characters exactly as they compare as numbers:
      '0'..'9' come before 'A'..'F' in code-point order. */
  lemma DigitOrder(c: char, e: char)
    requires !InvalidCharacter(c) && !InvalidCharacter(e)
    ensures c < e <==> HexDigit(c) < HexDigit(e)
  {
  }

  /** For names of equal length made of hex digits (all segment names), the
      lexicographic order is the numeric order of the counter they spell. */
  lemma {:induction false} LexOrderIsNumericOrder(a: string, b: string)
    requires AllHex(a) && AllHex(b) && |a| == |b|
    ensures LexLessEq(a, b) <==> HexValue(a) <= HexValue(b)
    decreases |a|
  {
    if a != [] {
      var p := Pow16(|a| - 1);
      var da, db := HexDigit(a[0]), HexDigit(b[0]);
      assert HexValue(a) == da * p + HexValue(a[1..]);
      assert HexValue(b) == db * p + HexValue(b[1..]);
      DigitOrder(a[0], b[0]);
      if a[0] == b[0] {
        LexOrderIsNumericOrder(a[1..], b[1..]);
      } else if a[0] < b[0] {
        HexValueBound(a[1..]);
        LeadingDigitDominates(da, db, p, HexValue(a[1..]), HexValue(b[1..]));
      } else {
        HexValueBound(b[1..]);
        LeadingDigitDominates(db, da, p, HexValue(b[1..]), HexValue(a[1..]));
      }
    }
  }
}
