/**
 * `sanitize_filename` (m3u8.py:76-89): strip the label, delete every
 * U+0020 space, then delete every character that file systems reserve.
 * Only the space is deleted from the interior: a tab or any other
 * whitespace between two visible characters survives, and no underscore
 * is ever inserted.
 */
module Sanitizer {
  import opened Text

  /** The characters `<>:"/\|?*` that the sanitizer deletes. */
  const Reserved: set<char> := {'<', '>', ':', '"', '/', '\\', '|', '?', '*'}

  /** A character that can never survive sanitizing. */
  predicate IsUnsafe(c: char) {
    c == ' ' || c in Reserved
  }

  /** The sanitized label: free of spaces and reserved characters. */
  function Sanitize(name: string): (r: string)
    ensures forall i :: 0 <= i < |r| ==> !IsUnsafe(r[i])
  {
    var spaceless := Without(Strip(name), {' '});
    WithoutAddsNothing(spaceless, Reserved);
    Without(spaceless, Reserved)
  }

  /** Sanitizing deletes characters only: the result is the raw label with
      some characters removed and the rest kept in order. */
  lemma SanitizeIsSubseq(name: string)
    ensures IsSubseq(Sanitize(name), name)
  {
    var stripped := Strip(name);
    var spaceless := Without(stripped, {' '});
    var r := Without(spaceless, Reserved);
    StripIsSubseq(name);
    WithoutIsSubseq(stripped, {' '});
    WithoutIsSubseq(spaceless, Reserved);
    SubseqTrans(spaceless, stripped, name);
    SubseqTrans(r, spaceless, name);
  }

  /** ... and deletes nothing else: every safe character of the stripped
      label is kept, as often as it occurs there. */
  lemma SanitizeKeepsSafe(name: string, c: char)
    requires !IsUnsafe(c)
    ensures multiset(Sanitize(name))[c] == multiset(Strip(name))[c]
  {
    WithoutKeepsCounts(Strip(name), {' '}, c);
    WithoutKeepsCounts(Without(Strip(name), {' '}), Reserved, c);
  }

  /** Sanitizing never lengthens a label. */
  lemma SanitizeNoLonger(name: string)
    ensures |Sanitize(name)| <= |name|
  {
    SanitizeIsSubseq(name);
    SubseqLength(Sanitize(name), name);
  }

  /** A label made only of spaces and reserved characters sanitizes to the
      empty string (and the Python code raises nothing on it). */
  lemma SanitizeAllUnsafe(name: string)
    requires forall i :: 0 <= i < |name| ==> IsUnsafe(name[i])
    ensures Sanitize(name) == ""
  {
    SanitizeIsSubseq(name);
    SubseqOfDeleted(Sanitize(name), name, {' '} + Reserved);
  }

  /** The fixed points of sanitizing are exactly the labels that are
      stripped and hold no space and no reserved character. */
  lemma SanitizeFixedPoint(s: string)
    ensures Sanitize(s) == s <==>
      IsStripped(s) && forall i :: 0 <= i < |s| ==> !IsUnsafe(s[i])
  {
    if IsStripped(s) && forall i :: 0 <= i < |s| ==> !IsUnsafe(s[i]) {
      assert Strip(s) == s;
      WithoutNothing(s, {' '});
      WithoutNothing(s, Reserved);
    }
    if Sanitize(s) == s && !IsStripped(s) {
      var stripped := Strip(s);
      var spaceless := Without(stripped, {' '});
      WithoutIsSubseq(stripped, {' '});
      WithoutIsSubseq(spaceless, Reserved);
      SubseqLength(spaceless, stripped);
      SubseqLength(Sanitize(s), spaceless);
    }
  }

  /** Sanitizing twice equals sanitizing once exactly when the first
      result neither starts nor ends with whitespace. */
  lemma SanitizeIdempotentIff(s: string)
    ensures Sanitize(Sanitize(s)) == Sanitize(s) <==> IsStripped(Sanitize(s))
  {
    SanitizeFixedPoint(Sanitize(s));
  }

  /** On a label whose only whitespace is U+0020, sanitizing is idempotent. */
  lemma SanitizeIdempotent(s: string)
    requires forall i :: 0 <= i < |s| && IsWs(s[i]) ==> s[i] == ' '
    ensures Sanitize(Sanitize(s)) == Sanitize(s)
  {
    var r := Sanitize(s);
    SanitizeIsSubseq(s);
    SubseqChars(r, s);
    forall i | 0 <= i < |r|
      ensures !IsWs(r[i])
    {
      assert r[i] in s;
    }
    SanitizeFixedPoint(r);
  }

  /** No whitespace character is reserved. */
  lemma WsIsNotReserved(w: char)
    requires IsWs(w)
    ensures w !in Reserved
  {
  }

  /** No reserved character is whitespace. */
  lemma ReservedIsNotWs(q: char)
    requires q in Reserved
    ensures !IsWs(q)
  {
  }

  /** A word: visible characters that sanitizing keeps. */
  predicate IsWord(x: string) {
    x != [] && forall i :: 0 <= i < |x| ==> !IsWs(x[i]) && !IsUnsafe(x[i])
  }

  lemma WordHasNoSpace(x: string)
    requires IsWord(x)
    ensures ' ' !in x
  {
    forall i | 0 <= i < |x|
      ensures x[i] != ' '
    {
      assert !IsUnsafe(x[i]);
    }
  }

  lemma WordsKeepReserved(x: string, y: string)
    requires IsWord(x) && IsWord(y)
    ensures Without(x + y, Reserved) == x + y
  {
    forall i | 0 <= i < |x + y|
      ensures (x + y)[i] !in Reserved
    {
      if i < |x| {
        assert (x + y)[i] == x[i] && !IsUnsafe(x[i]);
      } else {
        assert (x + y)[i] == y[i - |x|] && !IsUnsafe(y[i - |x|]);
      }
    }
    WithoutNothing(x + y, Reserved);
  }

  lemma StripWords(x: string, y: string)
    requires IsWord(x) && IsWord(y)
    ensures Strip(x + " " + y) == x + " " + y
  {
    var s := x + " " + y;
    assert s[0] == x[0] && s[|s| - 1] == y[|y| - 1];
    assert !IsWs(x[0]) && !IsWs(y[|y| - 1]);
  }

  /** The space between two words is deleted: `x + " " + y` sanitizes to
      `x + y`. */
  lemma SanitizeJoinsWords(x: string, y: string)
    requires IsWord(x) && IsWord(y)
    ensures Sanitize(x + " " + y) == x + y
  {
    StripWords(x, y);
    WordHasNoSpace(x);
    WordHasNoSpace(y);
    WithoutSpaceJoins(x, y);
    WordsKeepReserved(x, y);
  }

  /** The name `Episode 1` sanitizes to `Episode1`. */
  lemma SanitizeEpisodeExample()
    ensures Sanitize("Episode 1") == "Episode1"
  {
    var x, y := "Episode", "1";
    assert IsWord(x) by {
      forall i | 0 <= i < |x|
        ensures !IsWs(x[i]) && !IsUnsafe(x[i])
      {
      }
    }
    assert IsWord(y);
    SanitizeJoinsWords(x, y);
    assert x + " " + y == "Episode 1";
    assert x + y == "Episode1";
  }

  /** Sanitizing looks only at the stripped label. */
  lemma SanitizeOfStripped(s: string)
    ensures Sanitize(Strip(s)) == Sanitize(s)
  {
    assert Strip(Strip(s)) == Strip(s);
  }

  /** On a stripped label with no space, only the reserved-character
      deletion has any effect. */
  lemma SanitizeStrippedSpaceless(s: string)
    requires IsStripped(s)
    requires forall i :: 0 <= i < |s| ==> s[i] != ' '
    ensures Sanitize(s) == Without(s, Reserved)
  {
    WithoutNothing(s, {' '});
  }

  lemma SanitizeDropsTrailingWs(a: char, w: char)
    requires !IsWs(a) && IsWs(w)
    ensures Sanitize([a, w]) == Sanitize([a])
  {
    StripTrailingWs(a, w);
    SanitizeOfStripped([a, w]);
  }

  /** A visible character followed by whitespace sanitizes to the character. */
  lemma SanitizeTrailingWs(a: char, w: char)
    requires !IsWs(a) && !IsUnsafe(a) && IsWs(w)
    ensures Sanitize([a, w]) == [a]
  {
    assert Sanitize([a]) == [a] by {
      var t := [a];
      assert IsStripped(t);
      assert forall i :: 0 <= i < |t| ==> !IsUnsafe(t[i]);
      SanitizeFixedPoint(t);
    }
    SanitizeDropsTrailingWs(a, w);
  }

  /** A reserved character alone sanitizes away. */
  lemma DropReservedOne(q: char)
    requires q in Reserved
    ensures Without([q], Reserved) == []
  {
    WithoutCons(q, [], Reserved);
    assert [q] == [q] + [];
  }

  /** A kept character followed by a reserved one keeps the first. */
  lemma DropReservedLast(c: char, q: char)
    requires c !in Reserved && q in Reserved
    ensures Without([c, q], Reserved) == [c]
  {
    DropReservedOne(q);
    WithoutCons(c, [q], Reserved);
    assert [c, q] == [c] + [q];
  }

  /** Sanitizing is not idempotent in general. Take a visible character
      `a`, a whitespace character `w` other than U+0020 (a tab, say) and a
      reserved character `q`: `[a, w, q]` sanitizes to `[a, w]`, since the
      whitespace is inside the label when it is stripped, ... */
  lemma SanitizeKeepsInnerWs(a: char, w: char, q: char)
    requires !IsWs(a) && !IsUnsafe(a)
    requires IsWs(w) && w != ' '
    requires q in Reserved
    ensures Sanitize([a, w, q]) == [a, w]
  {
    var s := [a, w, q];
    ReservedIsNotWs(q);
    SanitizeStrippedSpaceless(s);
    assert Without(s, Reserved) == [a, w] by {
      WsIsNotReserved(w);
      DropReservedLast(w, q);
      WithoutCons(a, [w, q], Reserved);
      assert s == [a] + [w, q];
    }
  }

  /** ... and sanitizing `[a, w]` again strips the whitespace now at its edge. */
  lemma SanitizeNotIdempotent(a: char, w: char, q: char)
    requires !IsWs(a) && !IsUnsafe(a)
    requires IsWs(w) && w != ' '
    requires q in Reserved
    ensures Sanitize(Sanitize([a, w, q])) == [a]
  {
    SanitizeKeepsInnerWs(a, w, q);
    SanitizeTrailingWs(a, w);
  }

  /** Whitespace other than U+0020 inside the label is kept, so a label of
      reserved characters and whitespace need not sanitize to the empty
      string: `[q, w, q]` gives `[w]`. */
  lemma SanitizeKeepsWsBetweenReserved(w: char, q: char)
    requires IsWs(w) && w != ' '
    requires q in Reserved
    ensures Sanitize([q, w, q]) == [w]
  {
    var s := [q, w, q];
    ReservedIsNotWs(q);
    SanitizeStrippedSpaceless(s);
    assert Without(s, Reserved) == [w] by {
      WsIsNotReserved(w);
      DropReservedLast(w, q);
      WithoutCons(q, [w, q], Reserved);
      assert s == [q] + [w, q];
    }
  }
}
