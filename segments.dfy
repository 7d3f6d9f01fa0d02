/** Segment filter: which directory entries are WAL segment files.
    A segment file is named by exactly 24 upper-case hexadecimal digits;
    every other entry in the archive directory (partial files, history
    files, lower-case or shorter names) is noise. */
module Segments {

  /** Length of a segment file name. */
  const XlogDataFnameLen: nat := 24

  /** True for every character that may not appear in a segment name;
      only `0`-`9` and `A`-`F` are allowed. */
  predicate InvalidCharacter(r: char)
  {
    !(('A' <= r <= 'F') || ('0' <= r <= '9'))
  }

  /** Every character is a hex digit. */
  predicate AllHex(s: string)
  {
    forall i :: 0 <= i < |s| ==> !InvalidCharacter(s[i])
  }

  /** A valid segment file name. */
  predicate IsXlogName(name: string)
  {
    |name| == XlogDataFnameLen && AllHex(name)
  }

  /** Index of the first invalid character of `s`, or -1 when there is none,
      as the filter's search over the name reports it. */
  method IndexInvalid(s: string) returns (k: int)
    ensures -1 <= k < |s|
    ensures k == -1 <==> AllHex(s)
    ensures k >= 0 ==> InvalidCharacter(s[k]) && forall i :: 0 <= i < k ==> !InvalidCharacter(s[i])
  {
    var i := 0;
    while i < |s|
      invariant 0 <= i <= |s|
      invariant forall j :: 0 <= j < i ==> !InvalidCharacter(s[j])
    {
      if InvalidCharacter(s[i]) {
        return i;
      }
      i := i + 1;
    }
    return -1;
  }

  /** The names of `names` that are segment names, in their original order.
      Defined from the end so that it follows a left-to-right append loop. */
  function Filtered(names: seq<string>): seq<string>
  {
    if names == [] then []
    else
      var last := names[|names| - 1];
      Filtered(names[..|names| - 1]) + (if IsXlogName(last) then [last] else [])
  }

  /** Keeps the segment names of a directory listing, in listing order. */
  method FilterNonXlogFiles(filenames: seq<string>) returns (result: seq<string>)
    ensures result == Filtered(filenames)
  {
    result := [];
    var n := 0;
    while n < |filenames|
      invariant 0 <= n <= |filenames|
      invariant result == Filtered(filenames[..n])
    {
      var file := filenames[n];
      assert filenames[..n + 1][..n] == filenames[..n];
      n := n + 1;
      if |file| != XlogDataFnameLen {
        continue;
      }
      var bad := IndexInvalid(file);
      if bad > -1 {
        continue;
      }
      result := result + [file];
    }
    assert filenames[..n] == filenames;
  }

  /** `sub` can be obtained from `s` by deleting elements: same relative order,
      nothing new. */
  predicate IsSubsequence<T(==)>(sub: seq<T>, s: seq<T>)
  {
    if sub == [] then true
    else if s == [] then false
    else if sub[|sub| - 1] == s[|s| - 1] then IsSubsequence(sub[..|sub| - 1], s[..|s| - 1])
    else IsSubsequence(sub, s[..|s| - 1])
  }

  /** A name is in the filter's output exactly when it is in the input and is a
      segment name: lower-case hex, wrong lengths and other characters are dropped. */
  lemma {:induction false} FilteredMembership(names: seq<string>, x: string)
    ensures x in Filtered(names) <==> x in names && IsXlogName(x)
    decreases |names|
  {
    if names != [] {
      var init := names[..|names| - 1];
      FilteredMembership(init, x);
      assert names == init + [names[|names| - 1]];
    }
  }

  /** Every output of the filter is a segment name. */
  lemma {:induction false} FilteredAllValid(names: seq<string>)
    ensures forall i :: 0 <= i < |Filtered(names)| ==> IsXlogName(Filtered(names)[i])
  {
    forall i | 0 <= i < |Filtered(names)|
      ensures IsXlogName(Filtered(names)[i])
    {
      FilteredMembership(names, Filtered(names)[i]);
    }
  }

  /** The filter keeps each segment name as often as the listing holds it and
      drops every other name. */
  lemma {:induction false} FilteredCount(names: seq<string>, x: string)
    ensures multiset(Filtered(names))[x] == if IsXlogName(x) then multiset(names)[x] else 0
    decreases |names|
  {
    if names != [] {
      var init, last := names[..|names| - 1], names[|names| - 1];
      FilteredCount(init, x);
      assert names == init + [last];
    }
  }

  /** The filter's output is an order-preserving subsequence of its input. */
  lemma {:induction false} FilteredIsSubsequence(names: seq<string>)
    ensures IsSubsequence(Filtered(names), names)
    decreases |names|
  {
    if names != [] {
      var init, last := names[..|names| - 1], names[|names| - 1];
      FilteredIsSubsequence(init);
      if IsXlogName(last) {
        var f := Filtered(names);
        assert f[..|f| - 1] == Filtered(init);
      } else {
        SubsequenceOfPrefix(Filtered(init), init, last);
        assert names == init + [last];
        assert Filtered(names) == Filtered(init);
      }
    }
  }

  /** Dropping a name at the end of `s` keeps a subsequence of its prefix a
      subsequence of the whole. */
  lemma {:induction false} SubsequenceOfPrefix<T>(sub: seq<T>, s: seq<T>, x: T)
    requires IsSubsequence(sub, s)
    ensures IsSubsequence(sub, s + [x])
    decreases |s|, 1
  {
    var t := s + [x];
    assert t[..|t| - 1] == s;
    if sub != [] && sub[|sub| - 1] == x {
      SubsequenceWeaken(sub, s);
    }
  }

  /** A subsequence of `s` without its last element is still one of `s`. */
  lemma {:induction false} SubsequenceWeaken<T>(sub: seq<T>, s: seq<T>)
    requires sub != [] && IsSubsequence(sub, s)
    ensures IsSubsequence(sub[..|sub| - 1], s)
    decreases |s|, 0
  {
    var init := sub[..|sub| - 1];
    if s != [] && sub[|sub| - 1] != s[|s| - 1] {
      SubsequenceWeaken(sub, s[..|s| - 1]);
      SubsequenceOfPrefix(init, s[..|s| - 1], s[|s| - 1]);
      assert s[..|s| - 1] + [s[|s| - 1]] == s;
    } else if s != [] {
      if init != [] {
        SubsequenceOfPrefix(init, s[..|s| - 1], s[|s| - 1]);
        assert s[..|s| - 1] + [s[|s| - 1]] == s;
      }
    }
  }

  /** Filtering an already filtered listing changes nothing. */
  lemma {:induction false} FilteredIdempotent(names: seq<string>)
    ensures Filtered(Filtered(names)) == Filtered(names)
    decreases |names|
  {
    if names != [] {
      var init, last := names[..|names| - 1], names[|names| - 1];
      FilteredIdempotent(init);
      if IsXlogName(last) {
        var f := Filtered(names);
        assert f[..|f| - 1] == Filtered(init);
      } else {
        assert Filtered(names) == Filtered(init);
      }
    }
  }

  /** A one-entry listing survives the filter exactly when it is a segment name. */
  lemma SingletonFiltered(name: string)
    ensures Filtered([name]) == if IsXlogName(name) then [name] else []
  {
    assert [name][..0] == [];
  }
}
