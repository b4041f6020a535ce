/**
 * The string primitives that m3u8.py borrows from Python's `str`:
 * `strip()`, deletion of characters (`replace(c, "")` and a filtering
 * generator), and `startswith`. Each is specified independently of how it
 * is computed, and the notion "deletes characters only" is the
 * subsequence relation `IsSubseq`.
 */
module Text {

  /** Python's whitespace, as `str.strip()` with no argument removes it:
      the characters for which `str.isspace()` holds. */
  predicate IsWs(c: char) {
    ('\t' <= c <= '\r') || ('\U{1C}' <= c <= '\U{1F}') || c == ' ' ||
    c == '\U{85}' || c == '\U{A0}' || c == '\U{1680}' ||
    ('\U{2000}' <= c <= '\U{200A}') || c == '\U{2028}' || c == '\U{2029}' ||
    c == '\U{202F}' || c == '\U{205F}' || c == '\U{3000}'
  }

  /** A string that `strip()` leaves alone: it neither starts nor ends with whitespace. */
  predicate IsStripped(s: string) {
    s == [] || (!IsWs(s[0]) && !IsWs(s[|s| - 1]))
  }

  /** `s` with its leading whitespace removed. */
  function TrimStart(s: string): (r: string)
    ensures |r| <= |s| && r == s[|s| - |r|..]
    ensures forall i :: 0 <= i < |s| - |r| ==> IsWs(s[i])
    ensures r == [] || !IsWs(r[0])
  {
    if s != [] && IsWs(s[0]) then TrimStart(s[1..]) else s
  }

  /** `s` with its trailing whitespace removed. */
  function TrimEnd(s: string): (r: string)
    ensures |r| <= |s| && r == s[..|r|]
    ensures forall i :: |r| <= i < |s| ==> IsWs(s[i])
    ensures r == [] || !IsWs(r[|r| - 1])
  {
    if s != [] && IsWs(s[|s| - 1]) then TrimEnd(s[..|s| - 1]) else s
  }

  /** Python's `s.strip()`: a contiguous piece of `s` that is stripped, and
      all of `s` exactly when `s` was already stripped. */
  function Strip(s: string): (r: string)
    ensures IsStripped(r)
    ensures |r| <= |TrimStart(s)| <= |s| && r == TrimStart(s)[..|r|]
    ensures forall i :: |r| <= i < |TrimStart(s)| ==> IsWs(TrimStart(s)[i])
    ensures r == s <==> IsStripped(s)
  {
    TrimEnd(TrimStart(s))
  }

  /** `strip()` removes whitespace after a single visible character. */
  lemma StripTrailingWs(a: char, w: char)
    requires !IsWs(a) && IsWs(w)
    ensures Strip([a, w]) == [a]
  {
    assert TrimStart([a, w]) == [a, w];
    assert [a, w][..1] == [a];
    assert TrimEnd([a]) == [a];
  }

  /** `a` is obtained from `b` by deleting characters, keeping the order of the rest. */
  predicate IsSubseq(a: string, b: string)
    decreases |b|
  {
    if b == [] then a == []
    else (a != [] && a[0] == b[0] && IsSubseq(a[1..], b[1..])) || IsSubseq(a, b[1..])
  }

  /** `s` with every character of `bad` deleted. */
  function Without(s: string, bad: set<char>): (r: string)
    ensures forall i :: 0 <= i < |r| ==> r[i] !in bad
    ensures forall c :: c in bad ==> c !in r
  {
    if s == [] then []
    else if s[0] in bad then Without(s[1..], bad)
    else [s[0]] + Without(s[1..], bad)
  }

  /** `Without` introduces no character. */
  lemma {:induction false} WithoutAddsNothing(s: string, bad: set<char>)
    ensures forall c :: c in Without(s, bad) ==> c in s
    decreases |s|
  {
    if s != [] {
      WithoutAddsNothing(s[1..], bad);
      assert s == [s[0]] + s[1..];
    }
  }

  /** `Without` deletes characters only ... */
  lemma {:induction false} WithoutIsSubseq(s: string, bad: set<char>)
    ensures IsSubseq(Without(s, bad), s)
    decreases |s|
  {
    if s != [] {
      WithoutIsSubseq(s[1..], bad);
      var rest := Without(s[1..], bad);
      if s[0] !in bad {
        assert ([s[0]] + rest)[1..] == rest;
      }
    }
  }

  /** ... and keeps every other character as often as `s` has it. */
  lemma {:induction false} WithoutKeepsCounts(s: string, bad: set<char>, c: char)
    requires c !in bad
    ensures multiset(Without(s, bad))[c] == multiset(s)[c]
    decreases |s|
  {
    if s != [] {
      WithoutKeepsCounts(s[1..], bad, c);
      assert s == [s[0]] + s[1..];
    }
  }

  lemma {:induction false} SubseqLength(a: string, b: string)
    requires IsSubseq(a, b)
    ensures |a| <= |b|
    decreases |b|
  {
    if b != [] {
      if a != [] && a[0] == b[0] && IsSubseq(a[1..], b[1..]) {
        SubseqLength(a[1..], b[1..]);
      } else {
        SubseqLength(a, b[1..]);
      }
    }
  }

  /** Deleting characters introduces none: every character of `a` occurs in `b`. */
  lemma {:induction false} SubseqChars(a: string, b: string)
    requires IsSubseq(a, b)
    ensures forall c :: c in a ==> c in b
    decreases |b|
  {
    if b != [] {
      if a != [] && a[0] == b[0] && IsSubseq(a[1..], b[1..]) {
        SubseqChars(a[1..], b[1..]);
        assert a == [a[0]] + a[1..];
      } else {
        SubseqChars(a, b[1..]);
      }
    }
  }

  /** Deleting characters from a string made only of characters in `bad`
      cannot leave a character outside `bad`. */
  lemma {:induction false} SubseqOfDeleted(a: string, b: string, bad: set<char>)
    requires IsSubseq(a, b)
    requires forall i :: 0 <= i < |a| ==> a[i] !in bad
    requires forall i :: 0 <= i < |b| ==> b[i] in bad
    ensures a == []
    decreases |b|
  {
    if a != [] && b != [] {
      assert a[0] != b[0];
      SubseqOfDeleted(a, b[1..], bad);
    }
  }

  lemma {:induction false} SubseqTrans(a: string, b: string, c: string)
    requires IsSubseq(a, b) && IsSubseq(b, c)
    ensures IsSubseq(a, c)
    decreases |c|
  {
    if c == [] {
    } else if b != [] && b[0] == c[0] && IsSubseq(b[1..], c[1..]) {
      if a != [] && a[0] == b[0] && IsSubseq(a[1..], b[1..]) {
        SubseqTrans(a[1..], b[1..], c[1..]);
      } else {
        SubseqTrans(a, b[1..], c[1..]);
      }
    } else {
      SubseqTrans(a, b, c[1..]);
    }
  }

  lemma {:induction false} SubseqRefl(s: string)
    ensures IsSubseq(s, s)
    decreases |s|
  {
    if s != [] {
      SubseqRefl(s[1..]);
    }
  }

  /** A contiguous piece of `s` is a subsequence of it. */
  lemma {:induction false} SliceIsSubseq(s: string, i: nat, j: nat)
    requires i <= j <= |s|
    ensures IsSubseq(s[i..j], s)
    decreases |s|
  {
    if i == j {
      EmptyIsSubseq(s);
    } else if i == 0 {
      if j == |s| {
        assert s[i..j] == s;
        SubseqRefl(s);
      } else {
        assert s[..j][1..] == s[1..][..j - 1];
        SliceIsSubseq(s[1..], 0, j - 1);
      }
    } else {
      assert s[i..j] == s[1..][i - 1..j - 1];
      SliceIsSubseq(s[1..], i - 1, j - 1);
    }
  }

  lemma {:induction false} EmptyIsSubseq(s: string)
    ensures IsSubseq([], s)
    decreases |s|
  {
    if s != [] {
      EmptyIsSubseq(s[1..]);
    }
  }

  /** `strip()` deletes characters only. */
  lemma StripIsSubseq(s: string)
    ensures IsSubseq(Strip(s), s)
  {
    var t := TrimStart(s);
    SliceIsSubseq(t, 0, |Strip(s)|);
    SliceIsSubseq(s, |s| - |t|, |s|);
    assert t == s[|s| - |t|..|s|];
    assert Strip(s) == t[0..|Strip(s)|];
    SubseqTrans(Strip(s), t, s);
  }

  /** One step of `Without`: the first character is kept unless it is bad. */
  lemma WithoutCons(c: char, s: string, bad: set<char>)
    ensures Without([c] + s, bad) == if c in bad then Without(s, bad) else [c] + Without(s, bad)
  {
    assert ([c] + s)[1..] == s;
  }

  /** Deleting characters works piecewise. */
  lemma {:induction false} WithoutConcat(a: string, b: string, bad: set<char>)
    ensures Without(a + b, bad) == Without(a, bad) + Without(b, bad)
    decreases |a|
  {
    if a == [] {
      assert a + b == b;
    } else {
      assert (a + b)[0] == a[0] && (a + b)[1..] == a[1..] + b;
      WithoutConcat(a[1..], b, bad);
    }
  }

  /** Deleting the single space between two space-free words joins them. */
  lemma WithoutSpaceJoins(x: string, y: string)
    requires ' ' !in x && ' ' !in y
    ensures Without(x + " " + y, {' '}) == x + y
  {
    var sp: string := " ";
    assert Without(sp, {' '}) == [] by {
      assert sp[1..] == [];
    }
    assert Without(x + sp, {' '}) == x by {
      WithoutConcat(x, sp, {' '});
      WithoutNothing(x, {' '});
      assert x + [] == x;
    }
    assert Without(y, {' '}) == y by {
      WithoutNothing(y, {' '});
    }
    WithoutConcat(x + sp, y, {' '});
  }

  /** Deleting characters that do not occur changes nothing. */
  lemma {:induction false} WithoutNothing(s: string, bad: set<char>)
    requires forall i :: 0 <= i < |s| ==> s[i] !in bad
    ensures Without(s, bad) == s
    decreases |s|
  {
    if s != [] {
      WithoutNothing(s[1..], bad);
    }
  }
}
